/** What a call of `runProcess` (scripts/control-ui-i18n.ts) tells its caller and its child, in terms of what happened
    to it: the exit code and the output decide the outcome, timeouts and parent signals decide the signals sent. */
module ProcessOutcomes {
  import opened OutputBuffers
  import opened ProcessLifecycle
  import opened ProcessSystem
  import opened Text

  /** A missing exit code counts as failure. */
  function ExitCode(closed: Closed): int { if closed.code.None? then 1 else closed.code.value }

  /** The last `limit` characters. */
  function Tail(text: string, limit: nat): string { if |text| <= limit then text else text[|text| - limit..] }

  /** Output as it is reported: with a note on what was cut off. */
  function Report(text: string, limit: nat): string {
    if |text| <= limit then text
    else "[output truncated " + Decimal(|text| - limit) + " chars; showing tail]\n" + Tail(text, limit)
  }

  /** The outcome, if any, is the one that exit code, output and timeout prescribe. */
  ghost predicate OutcomeFits(r: Run) {
    var (limit, closed) := (r.options.maxOutputChars, r.world.closed);
    match r.outcome
    case None => true
    case Some(ProcessError) => r.world.errorSeen
    case Some(TimedOut) => closed.Some? && r.timedOut
    case Some(Failed) => closed.Some? && !r.timedOut && ExitCode(closed.value) != 0 && r.options.rejectOnFailure
    case Some(StdoutTruncated) =>
      closed.Some? && !r.timedOut && ExitCode(closed.value) == 0 && |r.world.output| > limit
    case Some(Resolved(code, stderr, stdout)) =>
      && closed.Some? && !r.timedOut && code == ExitCode(closed.value)
      && (if code == 0 then |r.world.output| <= limit else !r.options.rejectOnFailure)
      && stderr == Report(r.world.errors, limit) && stdout == Tail(r.world.output, limit)
  }

  /** What is sent without a parent signal, and what is listened to. */
  ghost predicate SignalsFit(r: Run) {
    && (r.parentSignalPending.None? ==>
          if !r.timedOut then r.world.sent == []
          else r.world.sent == if r.waitingForKillGrace then [SIGTERM] else [SIGTERM, SIGKILL])
    && r.handlers == (if r.Settled() || r.parentSignalPending.Some? then {} else {SIGINT, SIGTERM, SIGHUP})
    && r.clock.timeoutArmed == (!r.Settled() && !r.timedOut)
  }

  /** What is remembered of the child's end. */
  ghost predicate EndFits(r: Run) {
    && (r.childClosedResult.Some? ==> r.childClosedResult == r.world.closed)
    && (r.world.errorSeen ==> r.Settled())
  }

  ghost predicate Fits(r: Run) {
    && OutcomeFits(r) && SignalsFit(r) && EndFits(r)
    && IsTailOf(r.stderr, r.world.errors, r.options.maxOutputChars)
  }

  lemma StartedFits(options: Options, spawned: bool)
    ensures Fits(Started(options, spawned))
  {
  }

  lemma TailFits(capture: Capture, output: string, limit: nat)
    requires IsTailOf(capture, output, limit)
    ensures capture.text == Tail(output, limit) && FormatOutput(capture) == Report(output, limit)
    ensures capture.truncatedChars > 0 <==> |output| > limit
  {
    assert output[0..] == output;
  }

  /** Settling with a fitting outcome. */
  lemma SettleFits(r: Run, outcome: Outcome)
    requires CoreInv(r) && OutcomeFits(r) && SignalsFit(r)
    requires IsTailOf(r.stderr, r.world.errors, r.options.maxOutputChars)
    requires r.childClosedResult.Some? ==> r.childClosedResult == r.world.closed
    requires OutcomeFits(r.(outcome := Some(outcome)))
    ensures Fits(Settle(r, outcome))
  {
    hide IsTailOf, Report, Tail;
  }

  lemma CloseFits(r: Run, closed: Closed)
    requires CoreInv(r) && Fits(r) && r.world.closed == Some(closed)
    ensures Fits(FinishClose(r, closed))
  {
    TailFits(r.stdout, r.world.output, r.options.maxOutputChars);
    TailFits(r.stderr, r.world.errors, r.options.maxOutputChars);
    hide IsTailOf, Report, Tail, FormatOutput;
    assert OutcomeFits(r.(outcome := Some(CloseOutcome(r, closed))));
    hide OutcomeFits;
    SettleFits(r, CloseOutcome(r, closed));
  }

  lemma DataFits(r: Run, stream: Stream, chunk: string)
    requires Inv(r) && Fits(r) && r.world.closed.None?
    ensures Fits(OnData(r, stream, chunk))
  {
    hide IsTailOf, AppendBounded, Report, Tail;
    if stream == Stderr {
      AppendKeepsTail(r.stderr, r.world.errors, chunk, r.options.maxOutputChars);
    }
  }

  lemma TimeoutFits(r: Run)
    requires Inv(r) && Fits(r) && r.clock.timeoutArmed
    ensures Fits(OnTimeout(r))
  {
    hide IsTailOf, Report, Tail;
  }

  lemma KillTimerFits(r: Run, id: nat)
    requires Inv(r) && Fits(r) && id in r.clock.timers
    ensures Fits(OnKillTimer(r, id).run)
  {
    hide IsTailOf, Report, Tail, FinishClose, OutcomeFits;
    var r1 := KillTimerFired(r, id);
    assert OutcomeFits(r1) by { SameOutcome(r, r1); }
    if r.clock.timers[id].SettleKill? && r1.childClosedResult.Some? {
      CloseFits(r1, r1.childClosedResult.value);
    } else {
      SameOutcome(r, OnKillTimer(r, id).run);
    }
  }

  lemma SameOutcome(r: Run, next: Run)
    requires OutcomeFits(r) && next.options == r.options && next.outcome == r.outcome && next.timedOut == r.timedOut
    requires next.world == r.world.(sent := next.world.sent)
    ensures OutcomeFits(next)
  {
  }

  lemma ParentSignalFits(r: Run, signal: Signal)
    requires Inv(r) && Fits(r) && signal in r.handlers
    ensures Fits(OnParentSignal(r, signal).run)
  {
    hide IsTailOf, OutcomeFits;
    SameOutcome(r, OnParentSignal(r, signal).run);
  }

  lemma OnCloseFits(r: Run, closed: Closed)
    requires Inv(r) && Fits(r) && r.world.closed.None?
    ensures Fits(OnClose(r, closed).run)
  {
    hide IsTailOf, Report, Tail, FinishClose;
    var r1 := r.(world := r.world.(closed := Some(closed)));
    assert Fits(r1);
    if r1.parentSignalPending.None? && !(r1.waitingForKillGrace && !r1.world.groupGone) {
      CloseFits(r1, closed);
    }
  }

  lemma ErrorFits(r: Run)
    requires Inv(r) && Fits(r)
    ensures Fits(OnError(r))
  {
    hide IsTailOf, Report, Tail;
    SettleFits(r.(world := r.world.(errorSeen := true)), ProcessError);
  }

  /** Every event keeps it. */
  lemma StepFits(r: Run, e: Event)
    requires Inv(r) && Fits(r) && Enabled(r, e)
    ensures Fits(Step(r, e).run)
  {
    hide Inv, OnData, OnTimeout, OnKillTimer, OnClose, OnParentSignal, OnError, Report, Tail, IsTailOf;
    match e
    case Data(stream, chunk) => DataFits(r, stream, chunk);
    case Timeout => TimeoutFits(r);
    case KillTimer(id) => KillTimerFits(r, id);
    case Error => ErrorFits(r);
    case Close(closed) => OnCloseFits(r, closed);
    case ParentSignal(s) => ParentSignalFits(r, s);
    case GroupExit =>
  }

  /** The run after one more event: stepped, untouched or new. */
  lemma LastStep(events: seq<SystemEvent>, i: nat)
    requires events != [] && Execute(events).Some? && i < |Execute(events).value.runs|
    ensures Execute(events[..|events| - 1]).Some?
    ensures var before, e := Execute(events[..|events| - 1]).value.runs, events[|events| - 1];
            var r := Execute(events).value.runs[i];
            if i < |before| then
              if e.Happens? && e.run == i then Enabled(before[i], e.event) && r == Step(before[i], e.event).run
              else r == before[i]
            else e.Start? && r == Started(e.options, e.spawned)
  {
    var n := |events| - 1;
    hide Step, Enabled, AllActiveDone, SystemStep;
    var s, e := Execute(events[..n]).value, events[n];
    if i < |s.runs| {
      StepAt(s, e, i);
    } else {
      NewRun(s, e, i);
    }
  }

  lemma NewRun(s: System, e: SystemEvent, i: nat)
    requires SystemEnabled(s, e) && |s.runs| <= i < |SystemStep(s, e).runs|
    ensures e.Start? && SystemStep(s, e).runs[i] == Started(e.options, e.spawned)
  {
    hide Step, Enabled, AllActiveDone;
  }

  lemma {:induction false} RunFits(events: seq<SystemEvent>, i: nat)
    requires Execute(events).Some? && i < |Execute(events).value.runs|
    ensures Fits(Execute(events).value.runs[i])
  {
    hide Step, Enabled, Fits, Inv, Execute;
    if events == [] {
      NothingRuns();
    } else {
      var n := |events| - 1;
      LastStep(events, i);
      var before, e := Execute(events[..n]).value, events[n];
      EveryRunIsSafe(events[..n]);
      if i < |before.runs| {
        RunFits(events[..n], i);
        if e.Happens? && e.run == i {
          StepFits(before.runs[i], e.event);
        }
      } else {
        StartedFits(e.options, e.spawned);
      }
    }
  }

  lemma NothingRuns()
    ensures Execute([]) == Some(INITIAL)
  {
  }

  // ---------- in terms of the events ----------

  /** Everything a call's child has written to a stream. */
  function WrittenTo(stream: Stream, events: seq<SystemEvent>, i: nat): string {
    if events == [] then ""
    else
      var n := |events| - 1;
      WrittenTo(stream, events[..n], i) + match events[n]
                                          case Happens(run, Data(to, chunk)) =>
                                            if run == i && to == stream then chunk else ""
                                          case _ => ""
  }

  /** What the `close` event of a call said. */
  function ClosedBy(events: seq<SystemEvent>, i: nat): Option<Closed> {
    if events == [] then None
    else
      var n := |events| - 1;
      match events[n]
      case Happens(run, Close(closed)) => if run == i then Some(closed) else ClosedBy(events[..n], i)
      case _ => ClosedBy(events[..n], i)
  }

  /** The signals a call has reason to send: the timeout's, the kill timers' and the relayed ones. */
  function SignalsDue(events: seq<SystemEvent>, i: nat): seq<Signal> {
    if events == [] then []
    else
      var n := |events| - 1;
      SignalsDue(events[..n], i) + match events[n]
                                   case Happens(run, Timeout) => if run == i then [SIGTERM] else []
                                   case Happens(run, KillTimer(_)) => if run == i then [SIGKILL] else []
                                   case Happens(run, ParentSignal(s)) => if run == i then [s] else []
                                   case _ => []
  }

  /** The environment record of a call is what the events say. */
  ghost predicate IsHistory(r: Run, events: seq<SystemEvent>, i: nat) {
    && r.world.output == WrittenTo(Stdout, events, i) && r.world.errors == WrittenTo(Stderr, events, i)
    && r.world.closed == ClosedBy(events, i) && r.world.sent == SignalsDue(events, i)
    && (r.timedOut <==> Happens(i, Timeout) in events) && (r.world.errorSeen <==> Happens(i, Error) in events)
  }

  lemma OthersDoNotMatter(r: Run, events: seq<SystemEvent>, i: nat)
    requires events != [] && IsHistory(r, events[..|events| - 1], i)
    requires var e := events[|events| - 1]; e.Happens? ==> e.run != i
    ensures IsHistory(r, events, i)
  {
    var before, e := events[..|events| - 1], events[|events| - 1];
    assert events == before + [e];
    assert r.world.output + "" == r.world.output && r.world.errors + "" == r.world.errors;
  }

  /** What an event does to the environment record. */
  function WorldAfter(w: World, e: Event): World {
    match e
    case Data(Stdout, chunk) => w.(output := w.output + chunk)
    case Data(Stderr, chunk) => w.(errors := w.errors + chunk)
    case Timeout => w.(sent := w.sent + [SIGTERM])
    case KillTimer(_) => w.(sent := w.sent + [SIGKILL])
    case Error => w.(errorSeen := true)
    case Close(closed) => w.(closed := Some(closed))
    case ParentSignal(s) => w.(sent := w.sent + [s])
    case GroupExit => w.(groupGone := true)
  }

  lemma StepMovesWorld(r: Run, e: Event)
    requires Enabled(r, e)
    ensures Step(r, e).run.world == WorldAfter(r.world, e)
    ensures Step(r, e).run.timedOut == (r.timedOut || e.Timeout?)
  {
    hide AppendBounded, CloseOutcome;
    match e
    case Close(closed) =>
    case KillTimer(id) =>
    case _ =>
  }

  lemma StepIsHistory(r: Run, events: seq<SystemEvent>, i: nat)
    requires events != [] && IsHistory(r, events[..|events| - 1], i)
    requires var e := events[|events| - 1]; e.Happens? && e.run == i && Enabled(r, e.event)
    ensures IsHistory(Step(r, events[|events| - 1].event).run, events, i)
  {
    var before, e := events[..|events| - 1], events[|events| - 1];
    StepMovesWorld(r, e.event);
    hide Step, Enabled;
    assert events == before + [e];
    assert r.world.output + "" == r.world.output && r.world.errors + "" == r.world.errors;
  }

  /** Nothing has happened to a call that has not been started. */
  lemma {:induction false} NothingHappened(events: seq<SystemEvent>, i: nat, options: Options, spawned: bool)
    requires Execute(events).Some? && i >= |Execute(events).value.runs|
    ensures IsHistory(Started(options, spawned), events, i)
  {
    if events != [] {
      var n := |events| - 1;
      NotStarted(events, i);
      hide Execute, IsHistory;
      NothingHappened(events[..n], i, options, spawned);
      OthersDoNotMatter(Started(options, spawned), events, i);
    }
  }

  lemma NotStarted(events: seq<SystemEvent>, i: nat)
    requires events != [] && Execute(events).Some? && i >= |Execute(events).value.runs|
    ensures var before, e := Execute(events[..|events| - 1]), events[|events| - 1];
            before.Some? && i >= |before.value.runs| && (e.Happens? ==> e.run != i)
  {
    var n := |events| - 1;
    assert Execute(events[..n]).Some? && SystemEnabled(Execute(events[..n]).value, events[n]);
    assert Execute(events) == Some(SystemStep(Execute(events[..n]).value, events[n]));
    hide Execute;
    RunsOnlyAdded(Execute(events[..n]).value, events[n]);
  }

  lemma RunsOnlyAdded(s: System, e: SystemEvent)
    requires SystemEnabled(s, e)
    ensures |s.runs| <= |SystemStep(s, e).runs| && (e.Happens? ==> e.run < |s.runs|)
  {
    hide Step, Enabled, AllActiveDone;
  }

  lemma {:induction false} RunIsHistory(events: seq<SystemEvent>, i: nat)
    requires Execute(events).Some? && i < |Execute(events).value.runs|
    ensures IsHistory(Execute(events).value.runs[i], events, i)
  {
    hide Step, Enabled, Execute, IsHistory;
    if events == [] {
      NothingRuns();
    } else {
      var n := |events| - 1;
      LastStep(events, i);
      var before, e := Execute(events[..n]).value, events[n];
      if i < |before.runs| {
        RunIsHistory(events[..n], i);
        if e.Happens? && e.run == i {
          StepIsHistory(before.runs[i], events, i);
        } else {
          OthersDoNotMatter(before.runs[i], events, i);
        }
      } else {
        NothingHappened(events[..n], i, e.options, e.spawned);
        OthersDoNotMatter(Started(e.options, e.spawned), events, i);
      }
    }
  }

  /** What a call tells its caller, at every point of every interleaving, from its events alone. If an `error` event did
      not settle it, the `close` event did; then a timeout is reported exactly if one had fired, otherwise a failure
      exactly on a non-zero exit code with `rejectOnFailure`, otherwise too much output exactly on exit code zero with
      more than the limit, and otherwise it resolves with the exit code, the stderr text and the stdout text. */
  lemma OutcomesAreTold(events: seq<SystemEvent>, i: nat)
    requires Execute(events).Some? && i < |Execute(events).value.runs|
    ensures var r := Execute(events).value.runs[i];
            r.outcome == Some(ProcessError) ==> Happens(i, Error) in events
    ensures var r, closed := Execute(events).value.runs[i], ClosedBy(events, i);
            var (out, err) := (WrittenTo(Stdout, events, i), WrittenTo(Stderr, events, i));
            var limit := r.options.maxOutputChars;
            r.Settled() && r.outcome.value != ProcessError ==>
              && closed.Some?
              && var code := ExitCode(closed.value);
                 r.outcome.value == if Happens(i, Timeout) in events then TimedOut
                                    else if code != 0 && r.options.rejectOnFailure then Failed
                                    else if code == 0 && |out| > limit then StdoutTruncated
                                    else Resolved(code, Report(err, limit), Tail(out, limit))
  {
    RunFits(events, i);
    RunIsHistory(events, i);
    hide Execute, WrittenTo, ClosedBy, SignalsDue, Report, Tail, IsTailOf;
  }

  /** What a call sends to its child, at every point of every interleaving: exactly the signals due. Without a parent
      signal these are none before the timeout, and SIGTERM and at most one SIGKILL from it on. Until it settles or is
      handed a parent signal a call listens to SIGINT, SIGTERM and SIGHUP; until it settles or the timeout fires, the
      timeout stays armed. */
  lemma SignalsAreDue(events: seq<SystemEvent>, i: nat)
    requires Execute(events).Some? && i < |Execute(events).value.runs|
    ensures var r, timedOut := Execute(events).value.runs[i], Happens(i, Timeout) in events;
            && r.world.sent == SignalsDue(events, i)
            && (r.parentSignalPending.None? ==>
                  if timedOut then r.world.sent == [SIGTERM] || r.world.sent == [SIGTERM, SIGKILL]
                  else r.world.sent == [])
            && r.handlers == (if r.Settled() || r.parentSignalPending.Some? then {} else {SIGINT, SIGTERM, SIGHUP})
            && r.clock.timeoutArmed == (!r.Settled() && !timedOut)
  {
    RunFits(events, i);
    RunIsHistory(events, i);
    hide Execute, WrittenTo, ClosedBy, SignalsDue, OutcomeFits;
  }

  /** When a call settles: an `error` event settles it at once, a `close` event unless the call was handed a parent
      signal, or has timed out and its process group neither has exited nor was sent SIGKILL; the timeout's kill timer
      settles it if it has closed, and nothing else settles one. */
  lemma SettlesExactly(events: seq<SystemEvent>, i: nat, e: Event)
    requires Execute(events).Some? && i < |Execute(events).value.runs|
    requires Enabled(Execute(events).value.runs[i], e)
    ensures var r := Execute(events).value.runs[i];
            Step(r, e).run.Settled() <==>
            || r.Settled()
            || e.Error?
            || (e.Close? && r.parentSignalPending.None? && (Happens(i, Timeout) in events ==> Stopped(r)))
            || (e.KillTimer? && r.clock.timers[e.id].SettleKill? && r.childClosedResult.Some?)
    ensures var r := Execute(events).value.runs[i];
            && (r.childClosedResult.Some? ==> r.childClosedResult == ClosedBy(events, i))
            && (r.parentSignalPending.None? && !r.Settled() ==>
                  && r.childClosedResult == ClosedBy(events, i)
                  && (e.KillTimer? ==> r.clock.timers[e.id].SettleKill?))
  {
    EveryRunIsSafe(events);
    RunFits(events, i);
    RunIsHistory(events, i);
    ClosesAreRemembered(events, i);
    var r := Execute(events).value.runs[i];
    assert Inv(r);
    hide Execute, WrittenTo, ClosedBy, SignalsDue, OutcomeFits, CloseOutcome, IsTailOf, AppendBounded;
    match e
    case KillTimer(id) =>
    case Close(closed) =>
    case _ =>
  }

  /** The event ends what a relayed signal waits for: it finds the process group gone, or it is the kill timer of the
      signal. */
  predicate Completes(r: Run, e: Event) {
    match e
    case ParentSignal(_) => r.world.groupGone
    case Close(_) => r.parentSignalPending.Some? && r.world.groupGone
    case KillTimer(id) => id in r.clock.timers && r.clock.timers[id].RelayKill?
    case _ => false
  }

  /** Every active call was handed a signal and is complete. */
  ghost predicate AllComplete(s: System) {
    forall i <- s.active :: i < |s.runs| && s.runs[i].parentSignalPending.Some? && s.runs[i].done
  }

  lemma DoneExactly(r: Run, e: Event)
    requires Inv(r) && Enabled(r, e)
    ensures var next := Step(r, e);
            && (next.run.done <==> r.done || Completes(r, e))
            && next.reraise == (if Completes(r, e) then next.run.parentSignalPending else None)
            && next.run.parentSignalPending == (if e.ParentSignal? then Some(e.signal) else r.parentSignalPending)
  {
    hide AppendBounded, CloseOutcome, IsTailOf;
    match e
    case KillTimer(id) =>
    case Close(closed) =>
    case _ =>
  }

  /** When the parent re-raises, in both directions: exactly when an event completes one call and then every active call
      was handed a signal and is complete; what is re-raised is the signal of the call completed last. */
  lemma ReraisesExactly(events: seq<SystemEvent>, e: SystemEvent)
    requires Execute(events + [e]).Some?
    ensures Execute(events).Some?
    ensures var s, next := Execute(events).value, Execute(events + [e]).value;
            if e.Happens? && e.run < |s.runs| && Completes(s.runs[e.run], e.event) && AllComplete(next)
            then
              && e.run < |next.runs| && next.runs[e.run].parentSignalPending.Some?
              && next.raised == s.raised + [next.runs[e.run].parentSignalPending.value]
            else next.raised == s.raised
    ensures var s, next := Execute(events).value, Execute(events + [e]).value;
            e.Happens? ==>
              && e.run < |s.runs| && e.run < |next.runs|
              && (next.runs[e.run].done <==> s.runs[e.run].done || Completes(s.runs[e.run], e.event))
  {
    assert (events + [e])[..|events|] == events;
    EveryRunIsSafe(events);
    var s := Execute(events).value;
    assert Execute(events + [e]).value == SystemStep(s, e) && SystemEnabled(s, e);
    hide Execute;
    ReraiseStepExactly(s, e);
  }

  lemma ReraiseStepExactly(s: System, e: SystemEvent)
    requires SystemInv(s) && SystemEnabled(s, e)
    ensures var next := SystemStep(s, e);
            if e.Happens? && Completes(s.runs[e.run], e.event) && AllComplete(next)
            then next.runs[e.run].parentSignalPending.Some?
                 && next.raised == s.raised + [next.runs[e.run].parentSignalPending.value]
            else next.raised == s.raised
    ensures var next := SystemStep(s, e);
            e.Happens? ==>
              && e.run < |s.runs| == |next.runs|
              && (next.runs[e.run].done <==> s.runs[e.run].done || Completes(s.runs[e.run], e.event))
  {
    if e.Happens? {
      var r := s.runs[e.run];
      DoneExactly(r, e.event);
      assert Completes(r, e.event) ==>
               Step(r, e.event).run.parentSignalPending.Some? by { CompletesHanded(r, e.event); }
      hide Step, Enabled, Inv, Completes;
      assert s.raised + [] == s.raised;
    }
  }

  lemma CompletesHanded(r: Run, e: Event)
    requires Inv(r) && Enabled(r, e)
    ensures Completes(r, e) ==> e.ParentSignal? || r.parentSignalPending.Some?
  {
    hide IsTailOf;
  }
}
