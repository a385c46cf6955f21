/** The lifecycle of one child process started by `runProcess` (scripts/control-ui-i18n.ts): what each event handler
    does to the closure's variables, as functions on values, and what every event keeps. */
module ProcessLifecycle {
  import opened Text
  import opened OutputBuffers

  datatype Signal = SIGINT | SIGTERM | SIGHUP | SIGKILL

  const RELAYED_SIGNALS := {SIGINT, SIGTERM, SIGHUP}

  datatype Options = Options(maxOutputChars: nat, rejectOnFailure: bool) {
    /** `resolveRunProcessOutputLimit` never yields less than one. */
    predicate Valid() { maxOutputChars > 0 }
  }

  /** Exit code and signal of the close event; the code is None where Node passes null. */
  datatype Closed = Closed(code: Option<int>, signal: Option<Signal>)

  datatype Outcome =
    | Resolved(code: int, stderr: string, stdout: string)
    | TimedOut
    | Failed
    | StdoutTruncated
    | ProcessError

  /** What an armed kill timer does when it fires. */
  datatype KillJob = SettleKill | RelayKill(signal: Signal)

  /** What one call has armed in the event loop: its timeout, and its kill timers by number. */
  datatype Clock = Clock(timeoutArmed: bool, timers: map<nat, KillJob>, nextTimer: nat)

  /** The environment of one call: the signals sent to its process group, all stdout and all stderr so far, whether the
      group has exited, what `close` said once it was emitted, and whether `error` was. */
  datatype World = World(sent: seq<Signal>, output: string, errors: string, groupGone: bool, closed: Option<Closed>,
                         errorSeen: bool)

  /** The variables of one call; `killTimer` is the variable that should name the only armed kill timer. */
  datatype Run = Run(
    options: Options,
    stdout: Capture,
    stderr: Capture,
    timedOut: bool,
    outcome: Option<Outcome>,
    waitingForKillGrace: bool,
    childClosedResult: Option<Closed>,
    killTimer: Option<nat>,
    parentSignalPending: Option<Signal>,
    done: bool,
    handlers: set<Signal>,
    clock: Clock,
    world: World)
  {
    predicate Settled() { outcome.Some? }
  }

  function Started(options: Options, spawned: bool): Run {
    Run(options, EMPTY_CAPTURE, EMPTY_CAPTURE, false, None, false, None, None, None, false, RELAYED_SIGNALS,
        Clock(true, map[], 0), World([], "", "", !spawned, None, false))
  }

  /** `signalChild`. */
  function Send(r: Run, signal: Signal): Run { r.(world := r.world.(sent := r.world.sent + [signal])) }

  function Disarm(clock: Clock, id: Option<nat>): Clock {
    if id.Some? then clock.(timers := clock.timers - {id.value}) else clock
  }

  datatype Stream = Stdout | Stderr

  datatype Event =
    | Data(stream: Stream, chunk: string)
    | Timeout
    | KillTimer(id: nat)
    | Error
    | Close(closed: Closed)
    | ParentSignal(signal: Signal)
    | GroupExit

  /** The run after an event, and the signal handed to `maybeReraiseRunProcessParentSignal`, if any. */
  datatype Effect = Effect(run: Run, reraise: Option<Signal>)

  function FormatOutput(capture: Capture): string {
    if capture.truncatedChars == 0 then capture.text
    else "[output truncated " + Decimal(capture.truncatedChars) + " chars; showing tail]\n" + capture.text
  }

  function Settle(r: Run, outcome: Outcome): Run {
    if r.Settled() then r
    else
      var clock := if r.parentSignalPending.None? then Disarm(r.clock, r.killTimer) else r.clock;
      r.(outcome := Some(outcome), handlers := {}, clock := clock.(timeoutArmed := false))
  }

  function CloseOutcome(r: Run, closed: Closed): Outcome {
    var code := if closed.code.Some? then closed.code.value else 1;
    if r.timedOut then TimedOut
    else if code != 0 && r.options.rejectOnFailure then Failed
    else if code == 0 && r.stdout.truncatedChars > 0 then StdoutTruncated
    else Resolved(code, FormatOutput(r.stderr), r.stdout.text)
  }

  function FinishClose(r: Run, closed: Closed): Run { Settle(r, CloseOutcome(r, closed)) }

  function Arm(r: Run, job: KillJob): Run {
    var id := r.clock.nextTimer;
    r.(killTimer := Some(id), clock := r.clock.(timers := r.clock.timers[id := job], nextTimer := id + 1))
  }

  function OnData(r: Run, stream: Stream, chunk: string): Run {
    if stream == Stdout then
      r.(stdout := AppendBounded(r.stdout, chunk, r.options.maxOutputChars),
         world := r.world.(output := r.world.output + chunk))
    else
      r.(stderr := AppendBounded(r.stderr, chunk, r.options.maxOutputChars),
         world := r.world.(errors := r.world.errors + chunk))
  }

  function OnTimeout(r: Run): Run {
    var r1 := Send(r.(timedOut := true, clock := r.clock.(timeoutArmed := false)), SIGTERM);
    if r1.waitingForKillGrace then r1 else Arm(r1.(waitingForKillGrace := true), SettleKill)
  }

  function OnKillTimer(r: Run, id: nat): Effect
    requires id in r.clock.timers
  {
    var r1 := KillTimerFired(r, id);
    match r.clock.timers[id]
    case SettleKill =>
      Effect(if r1.childClosedResult.Some? then FinishClose(r1, r1.childClosedResult.value) else r1, None)
    case RelayKill(signal) => Effect(r1.(done := true), Some(signal))
  }

  /** What both kinds of kill timer do first. */
  function KillTimerFired(r: Run, id: nat): Run {
    Send(r.(waitingForKillGrace := false, killTimer := None, clock := Disarm(r.clock, Some(id))), SIGKILL)
  }

  function OnParentSignal(r: Run, signal: Signal): Effect {
    var r1 := Send(r.(parentSignalPending := Some(signal), handlers := {}), signal);
    if r1.world.groupGone then Effect(r1.(done := true), Some(signal))
    else Effect(Arm(r1.(waitingForKillGrace := true, clock := Disarm(r1.clock, r1.killTimer)), RelayKill(signal)), None)
  }

  function OnClose(r: Run, closed: Closed): Effect {
    var r1 := r.(world := r.world.(closed := Some(closed)));
    if r1.parentSignalPending.Some? then
      if !r1.world.groupGone then Effect(r1.(childClosedResult := Some(closed)), None)
      else Effect(r1.(killTimer := None, clock := Disarm(r1.clock, r1.killTimer), done := true), r1.parentSignalPending)
    else if r1.waitingForKillGrace && !r1.world.groupGone then Effect(r1.(childClosedResult := Some(closed)), None)
    else Effect(FinishClose(r1, closed), None)
  }

  function OnGroupExit(r: Run): Run { r.(world := r.world.(groupGone := true)) }

  function OnError(r: Run): Run { Settle(r.(world := r.world.(errorSeen := true)), ProcessError) }

  /** When an event can happen: timers fire only while armed, `close` and the handled `error` come once, output ends
      before `close`, and a parent signal reaches only an installed handler. */
  predicate Enabled(r: Run, e: Event) {
    match e
    case Data(_, _) => r.world.closed.None?
    case Timeout => r.clock.timeoutArmed
    case KillTimer(id) => id in r.clock.timers
    case Error => !r.world.errorSeen
    case Close(_) => r.world.closed.None?
    case ParentSignal(s) => s in r.handlers
    case GroupExit => true
  }

  function Step(r: Run, e: Event): Effect
    requires Enabled(r, e)
  {
    match e
    case Data(stream, chunk) => Effect(OnData(r, stream, chunk), None)
    case Timeout => Effect(OnTimeout(r), None)
    case KillTimer(id) => OnKillTimer(r, id)
    case Error => Effect(OnError(r), None)
    case Close(closed) => OnClose(r, closed)
    case ParentSignal(s) => OnParentSignal(r, s)
    case GroupExit => Effect(OnGroupExit(r), None)
  }

  /** The process group has exited, or was sent SIGKILL. */
  predicate Stopped(r: Run) { r.world.groupGone || SIGKILL in r.world.sent }

  /** An armed kill timer with this job. */
  ghost predicate Armed(r: Run, job: KillJob) {
    r.killTimer.Some? && r.killTimer.value in r.clock.timers && r.clock.timers[r.killTimer.value] == job
  }

  /** `killTimer` names every armed kill timer: none is ever lost track of, so at most one is armed. */
  ghost predicate TimersTracked(r: Run) {
    && (forall id <- r.clock.timers :: r.killTimer == Some(id))
    && (r.killTimer.Some? ==> r.killTimer.value < r.clock.nextTimer)
    && (!r.waitingForKillGrace ==> r.clock.timers == map[])
    && (forall id <- r.clock.timers :: r.clock.timers[id].SettleKill? ==> r.timedOut)
  }

  /** Once settled, or once a parent signal was relayed, no parent-signal handler is installed; a settled call leaves
      nothing armed except a relayed signal's kill timer. */
  ghost predicate Released(r: Run) {
    && (r.Settled() || r.parentSignalPending.Some? ==> r.handlers == {})
    && (r.Settled() ==> !r.clock.timeoutArmed)
    && (r.Settled() && r.parentSignalPending.None? ==> r.clock.timers == map[])
  }

  /** A call resolves only after `close`, without timeout and without relayed signal; exit code zero then comes with
      the complete stdout. */
  ghost predicate ResolvedWell(r: Run) {
    && (r.outcome.Some? && r.outcome.value.Resolved? ==> r.world.closed.Some? && !r.timedOut)
    && (r.outcome.Some? && r.outcome.value.Resolved? ==> r.parentSignalPending.None?)
    && (r.outcome.Some? && r.outcome.value.Resolved? && r.outcome.value.code == 0 ==>
      r.outcome.value.stdout == r.world.output)
  }

  /** A timeout sends SIGTERM, and its rejection waits until the group is gone or SIGKILL was sent. */
  ghost predicate TimeoutWaits(r: Run) {
    && (r.timedOut ==> SIGTERM in r.world.sent && !r.clock.timeoutArmed)
    && (r.outcome == Some(TimedOut) ==> r.timedOut && Stopped(r))
    && (r.timedOut && !r.waitingForKillGrace && r.parentSignalPending.None? ==> Stopped(r))
    && (r.waitingForKillGrace && r.parentSignalPending.None? ==> r.timedOut)
  }

  /** A relayed signal is forwarded, counted done only when the group has stopped, and until then its kill timer is
      armed; a deferred close is never forgotten either. */
  ghost predicate NothingForgotten(r: Run) {
    && (r.done ==> r.parentSignalPending.Some? && Stopped(r))
    && (r.parentSignalPending.Some? ==> r.parentSignalPending.value in r.world.sent)
    && (r.parentSignalPending.Some? && !r.done ==>
      r.waitingForKillGrace && Armed(r, RelayKill(r.parentSignalPending.value)))
    && (r.parentSignalPending.None? && !r.Settled() && r.waitingForKillGrace ==> Armed(r, SettleKill))
    && (forall id <- r.clock.timers :: r.clock.timers[id].RelayKill? ==>
      r.parentSignalPending == Some(r.clock.timers[id].signal))
  }

  /** A deferred close is settled by an armed kill timer. */
  ghost predicate DeferredCloseWaits(r: Run) {
    r.childClosedResult.Some? && !r.Settled() && r.parentSignalPending.None? ==> r.waitingForKillGrace
  }

  /** What holds even while a handler is about to settle. */
  ghost predicate CoreInv(r: Run) {
    && r.options.Valid()
    && IsTailOf(r.stdout, r.world.output, r.options.maxOutputChars)
    && TimersTracked(r)
    && Released(r)
    && ResolvedWell(r)
    && TimeoutWaits(r)
    && NothingForgotten(r)
    && (r.childClosedResult.Some? ==> r.world.closed.Some?)
  }

  ghost predicate Inv(r: Run) { CoreInv(r) && DeferredCloseWaits(r) }

  lemma StartedInv(options: Options, spawned: bool)
    requires options.Valid()
    ensures Inv(Started(options, spawned))
  {
  }

  lemma SettleInv(r: Run, outcome: Outcome)
    requires CoreInv(r)
    requires outcome == TimedOut ==> r.timedOut && Stopped(r)
    requires outcome.Resolved? ==> r.world.closed.Some? && !r.timedOut && r.parentSignalPending.None?
    requires outcome.Resolved? && outcome.code == 0 ==> outcome.stdout == r.world.output
    ensures Inv(Settle(r, outcome))
  {
    hide IsTailOf;
  }

  /** The close path rejects a timed-out call only when the group has stopped. */
  lemma FinishCloseInv(r: Run, closed: Closed)
    requires CoreInv(r)
    requires r.world.closed.Some? && (r.timedOut ==> Stopped(r)) && (r.parentSignalPending.Some? ==> r.timedOut)
    ensures Inv(FinishClose(r, closed))
  {
    assert r.stdout.truncatedChars == 0 ==> r.stdout.text == r.world.output;
    hide IsTailOf, FormatOutput;
    SettleInv(r, CloseOutcome(r, closed));
  }

  lemma DataInv(r: Run, stream: Stream, chunk: string)
    requires Inv(r) && r.world.closed.None?
    ensures Inv(OnData(r, stream, chunk))
  {
    hide IsTailOf, AppendBounded;
    if stream == Stdout {
      AppendKeepsTail(r.stdout, r.world.output, chunk, r.options.maxOutputChars);
    }
  }

  lemma TimeoutInv(r: Run)
    requires Inv(r) && r.clock.timeoutArmed
    ensures Inv(OnTimeout(r))
  {
  }

  lemma KillTimerInv(r: Run, id: nat)
    requires Inv(r) && id in r.clock.timers
    ensures Inv(OnKillTimer(r, id).run)
  {
    hide IsTailOf, FinishClose;
    if r.clock.timers[id].SettleKill? {
      var r1 := KillTimerFired(r, id);
      assert CoreInv(r1);
      if r1.childClosedResult.Some? {
        FinishCloseInv(r1, r1.childClosedResult.value);
      }
    }
  }

  lemma CloseInv(r: Run, closed: Closed)
    requires Inv(r) && r.world.closed.None?
    ensures Inv(OnClose(r, closed).run)
  {
    hide IsTailOf, FinishClose;
    var r1 := r.(world := r.world.(closed := Some(closed)));
    if r1.parentSignalPending.None? && !(r1.waitingForKillGrace && !r1.world.groupGone) {
      FinishCloseInv(r1, closed);
    }
  }

  lemma ParentSignalInv(r: Run, signal: Signal)
    requires Inv(r) && signal in r.handlers
    ensures Inv(OnParentSignal(r, signal).run)
  {
    hide IsTailOf;
  }

  lemma ErrorInv(r: Run)
    requires Inv(r)
    ensures Inv(OnError(r))
  {
    hide IsTailOf, Settle;
    SettleInv(r.(world := r.world.(errorSeen := true)), ProcessError);
  }

  lemma GroupExitInv(r: Run)
    requires Inv(r)
    ensures Inv(OnGroupExit(r))
  {
  }

  /** Every event keeps the invariant. */
  lemma StepInv(r: Run, e: Event)
    requires Inv(r) && Enabled(r, e)
    ensures Inv(Step(r, e).run)
  {
    hide Inv, OnData, OnTimeout, OnKillTimer, OnClose, OnParentSignal, OnError, OnGroupExit;
    match e
    case Data(stream, chunk) => DataInv(r, stream, chunk);
    case Timeout => TimeoutInv(r);
    case KillTimer(id) => KillTimerInv(r, id);
    case Error => ErrorInv(r);
    case Close(closed) => CloseInv(r, closed);
    case ParentSignal(s) => ParentSignalInv(r, s);
    case GroupExit => GroupExitInv(r);
  }

  /** A promise settles at most once: no event changes an outcome. */
  lemma SettlesOnce(r: Run, e: Event)
    requires Enabled(r, e) && r.Settled()
    ensures Step(r, e).run.outcome == r.outcome
  {
    hide AppendBounded, CloseOutcome;
    match e
    case Close(closed) =>
      assert FinishClose(r.(world := r.world.(closed := Some(closed))), closed).outcome == r.outcome;
    case KillTimer(id) =>
    case _ =>
  }

  /** A settled call to which no parent signal was relayed is inert: it signals no process any more and asks for no
      re-raise. */
  lemma SettledIsInert(r: Run, e: Event)
    requires Inv(r) && Enabled(r, e) && r.Settled() && r.parentSignalPending.None?
    ensures var next := Step(r, e);
            next.run.world.sent == r.world.sent && next.run.parentSignalPending.None? && next.reraise.None?
  {
    hide IsTailOf, AppendBounded;
  }

  /** Whoever asks for a re-raise was handed that signal, and its own process group has stopped. */
  lemma ReraiseRequest(r: Run, e: Event)
    requires Inv(r) && Enabled(r, e) && Step(r, e).reraise.Some?
    ensures var next := Step(r, e);
            next.run.parentSignalPending == next.reraise && next.run.done && Stopped(next.run)
  {
    StepInv(r, e);
    hide IsTailOf, AppendBounded;
  }

  /** A close that did not settle the call is remembered, unless a parent signal was relayed. */
  ghost predicate CloseRemembered(r: Run) {
    r.world.closed.Some? && !r.Settled() && r.parentSignalPending.None? ==> r.childClosedResult.Some?
  }

  lemma StepRemembersClose(r: Run, e: Event)
    requires CloseRemembered(r) && Enabled(r, e)
    ensures CloseRemembered(Step(r, e).run)
  {
    hide AppendBounded, FormatOutput;
  }

  /** A call whose close was deferred does not hang: its kill timer is armed, and firing it settles the call. */
  lemma DeferredCloseSettles(r: Run)
    requires Inv(r) && CloseRemembered(r)
    requires r.world.closed.Some? && !r.Settled() && r.parentSignalPending.None?
    ensures r.killTimer.Some? && Enabled(r, KillTimer(r.killTimer.value))
    ensures Step(r, KillTimer(r.killTimer.value)).run.Settled()
  {
    hide IsTailOf, FormatOutput;
    assert Armed(r, SettleKill);
  }
}
