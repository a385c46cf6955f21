/** Any number of `runProcess` objects sharing one parent (scripts/control-ui-i18n.ts): starting a call and handing an
    event to one are the steps of `ProcessSystem`, so what is proved of its runs holds of the objects. */
module ProcessObjects {
  import opened Text
  import opened ProcessLifecycle
  import opened ProcessSystem
  import Objects = ProcessRun

  ghost function States(calls: seq<Objects.ProcessRun>): set<Objects.ParentSignalState> {
    set call <- calls :: call.parentSignalState
  }

  /** No two calls are the same object or have the same signal state. */
  ghost predicate Separate(calls: seq<Objects.ProcessRun>) {
    forall i, j :: 0 <= i < |calls| && 0 <= j < |calls| && i != j ==>
      calls[i] != calls[j] && calls[i].parentSignalState != calls[j].parentSignalState
  }

  /** The objects are in the state `s` of the system. */
  ghost predicate Represents(calls: seq<Objects.ProcessRun>, parent: Objects.Parent, s: System)
    reads parent, calls, States(calls)
  {
    && |calls| == |s.runs|
    && Separate(calls)
    && (forall i :: 0 <= i < |calls| ==>
          calls[i].parent == parent && calls[i].Valid() && calls[i].View() == s.runs[i])
    && (forall i :: i in s.active ==> 0 <= i < |calls|)
    && (forall i :: 0 <= i < |calls| ==> (i in s.active <==> calls[i].parentSignalState in parent.active))
    && (forall state <- parent.active :: state in States(calls))
    && parent.raised == s.raised
  }

  /** The test before a re-raise says the same of the objects as of the system. */
  lemma AllDoneAgrees(calls: seq<Objects.ProcessRun>, parent: Objects.Parent, s: System)
    requires Represents(calls, parent, s.(raised := parent.raised))
    ensures parent.AllDone() <==> AllActiveDone(s)
  {
    if AllActiveDone(s) {
      forall state | state in parent.active ensures state.signal.Some? && state.done {
        var i :| 0 <= i < |calls| && calls[i].parentSignalState == state;
        assert calls[i].Valid() && calls[i].View() == s.runs[i];
      }
    }
    if parent.AllDone() {
      forall i | i in s.active ensures s.runs[i].parentSignalPending.Some? && s.runs[i].done {
        assert calls[i].Valid() && calls[i].View() == s.runs[i];
      }
    }
  }

  /** A parent without calls is the system's initial state. */
  lemma NoCalls(parent: Objects.Parent)
    requires parent.active == {} && parent.raised == []
    ensures Represents([], parent, INITIAL)
  {
  }

  /** Starting a call. */
  method StartCall(calls: seq<Objects.ProcessRun>, parent: Objects.Parent, options: Options, spawned: bool,
                   ghost s: System)
    returns (call: Objects.ProcessRun)
    requires Represents(calls, parent, s) && options.Valid()
    modifies parent
    ensures fresh(call) && fresh(call.parentSignalState)
    ensures Represents(calls + [call], parent, SystemStep(s, Start(options, spawned)))
  {
    call := new Objects.ProcessRun(options, parent, spawned);
    hide Started;
    ghost var all := calls + [call];
    forall state | state in parent.active ensures state in States(all) {
      if state in States(calls) {
        var c :| c in calls && c.parentSignalState == state;
        assert c in all;
      } else {
        assert call in all;
      }
    }
  }

  /** Handing an event to one of the calls. */
  method Deliver(calls: seq<Objects.ProcessRun>, parent: Objects.Parent, i: nat, event: Event, alive: bool,
                 ghost s: System)
    requires Represents(calls, parent, s) && SystemEnabled(s, Happens(i, event))
    requires alive == !calls[i].world.groupGone
    modifies parent, calls[i], calls[i].parentSignalState
    ensures Represents(calls, parent, SystemStep(s, Happens(i, event)))
  {
    hide Step, Enabled;
    var call := calls[i];
    ghost var effect := Step(s.runs[i], event);
    ghost var leaves := !s.runs[i].Settled() && effect.run.Settled() && effect.run.parentSignalPending.None?;
    ghost var s1 := s.(runs := s.runs[i := effect.run], active := if leaves then s.active - {i} else s.active);
    call.Handle(event, alive);
    forall j | 0 <= j < |calls|
      ensures calls[j].parent == parent && calls[j].Valid() && calls[j].View() == s1.runs[j]
      ensures j in s1.active <==> calls[j].parentSignalState in parent.active
    {
      if j != i {
        assert calls[j] != call && calls[j].parentSignalState != call.parentSignalState;
        assert calls[j].View() == old(calls[j].View());
      }
    }
    assert Represents(calls, parent, s1.(raised := parent.raised)) by {
      hide AllActiveDone;
    }
    AllDoneAgrees(calls, parent, s1);
    hide Represents, AllActiveDone;
    assert SystemStep(s, Happens(i, event)) == s1.(raised := parent.raised);
  }

  /** What a re-raise means for the objects: every active call was handed a signal, and its group has exited or was sent
      SIGKILL; no call has a parent-signal handler installed. */
  ghost predicate AllStopped(calls: seq<Objects.ProcessRun>, parent: Objects.Parent)
    reads parent, calls, States(calls)
  {
    forall i :: 0 <= i < |calls| ==>
      && calls[i].handlers == {}
      && (calls[i].parentSignalState in parent.active ==>
            calls[i].parentSignalState.signal.Some? && Stopped(calls[i].View()))
  }

  lemma SafeMeansStopped(calls: seq<Objects.ProcessRun>, parent: Objects.Parent, s: System, signal: Signal)
    requires Represents(calls, parent, s) && SafeToReraise(s, signal)
    ensures AllStopped(calls, parent)
  {
    hide Stopped;
    forall i | 0 <= i < |calls|
      ensures calls[i].handlers == {}
      ensures calls[i].parentSignalState in parent.active ==>
                calls[i].parentSignalState.signal.Some? && Stopped(calls[i].View())
    {
      assert calls[i].Valid() && calls[i].View() == s.runs[i];
    }
  }

  /** Along any run of starts and events the objects stay in a state the system can reach; a signal is re-raised only
      when every active call has stopped, and a settled call keeps its outcome. */
  method DeliverNext(calls: seq<Objects.ProcessRun>, parent: Objects.Parent, i: nat, event: Event, alive: bool,
                     ghost events: seq<SystemEvent>)
    requires Execute(events).Some? && Represents(calls, parent, Execute(events).value)
    requires SystemEnabled(Execute(events).value, Happens(i, event)) && alive == !calls[i].world.groupGone
    modifies parent, calls[i], calls[i].parentSignalState
    ensures Execute(events + [Happens(i, event)]).Some?
    ensures Represents(calls, parent, Execute(events + [Happens(i, event)]).value)
    ensures parent.raised != old(parent.raised) ==> AllStopped(calls, parent)
    ensures forall j :: 0 <= j < |calls| && old(calls[j].outcome).Some? ==> calls[j].outcome == old(calls[j].outcome)
  {
    ghost var s, e := Execute(events).value, Happens(i, event);
    ghost var next := SystemStep(s, e);
    ExecuteNext(events, e);
    Deliver(calls, parent, i, event, alive, s);
    hide Execute, SystemEnabled, SystemStep, SafeToReraise, AllStopped, SystemInv;
    assert s.raised == old(parent.raised) && next.raised == parent.raised by {
      assert Represents(calls, parent, next);
    }
    EveryRunIsSafe(events);
    if parent.raised != old(parent.raised) {
      ReraiseStep(s, e);
      SafeMeansStopped(calls, parent, next, next.raised[|s.raised|]);
    }
    forall j | 0 <= j < |calls| && old(calls[j].outcome).Some? ensures calls[j].outcome == old(calls[j].outcome) {
      assert old(calls[j].View()) == s.runs[j] && calls[j].View() == next.runs[j];
      OutcomeStays(s, e, j);
    }
  }

  lemma ExecuteNext(events: seq<SystemEvent>, e: SystemEvent)
    requires Execute(events).Some? && SystemEnabled(Execute(events).value, e)
    ensures Execute(events + [e]) == Some(SystemStep(Execute(events).value, e))
  {
    assert (events + [e])[..|events|] == events;
  }

  lemma {:induction false} PrefixRuns(script: seq<SystemEvent>, k: nat)
    requires Execute(script).Some? && k <= |script|
    ensures Execute(script[..k]).Some?
    ensures k < |script| ==>
              && SystemEnabled(Execute(script[..k]).value, script[k])
              && Execute(script[..k + 1]) == Some(SystemStep(Execute(script[..k]).value, script[k]))
    decreases |script|
  {
    hide SystemEnabled, SystemStep;
    var n := |script|;
    if k == n {
      assert script[..k] == script;
    } else if k == n - 1 {
      assert script[..k + 1] == script;
    } else {
      PrefixRuns(script[..n - 1], k);
      assert script[..n - 1][..k] == script[..k] && script[..n - 1][..k + 1] == script[..k + 1];
    }
  }

  /** What the test for a live process group answers at the `k`-th event of a run. */
  ghost predicate Answers(script: seq<SystemEvent>, k: nat, alive: bool)
    requires k < |script|
  {
    script[k].Happens? ==>
      match Execute(script[..k])
      case None => true
      case Some(s) => script[k].run < |s.runs| ==> alive == !s.runs[script[k].run].world.groupGone
  }

  ghost predicate AllAnswered(script: seq<SystemEvent>, alive: seq<bool>)
    requires |script| == |alive|
  {
    forall k :: 0 <= k < |script| ==> Answers(script, k, alive[k])
  }

  /** A whole run: every start and event of a script that can happen, played on objects that share a parent. */
  method Play(script: seq<SystemEvent>, alive: seq<bool>, parent: Objects.Parent)
    returns (calls: seq<Objects.ProcessRun>)
    requires parent.active == {} && parent.raised == []
    requires Execute(script).Some? && |alive| == |script|
    requires AllAnswered(script, alive)
    modifies parent
    ensures forall c <- calls :: fresh(c) && fresh(c.parentSignalState)
    ensures Represents(calls, parent, Execute(script).value)
  {
    calls := [];
    NoCalls(parent);
    hide Execute, SystemEnabled, SystemStep, Represents, AllAnswered;
    ghost var s := INITIAL;
    NothingRuns(script);
    for k := 0 to |script|
      invariant forall c <- calls :: fresh(c) && fresh(c.parentSignalState)
      invariant Execute(script[..k]) == Some(s) && Represents(calls, parent, s)
    {
      PrefixRuns(script, k);
      AnswerAt(script, alive, k, s);
      calls := PlayOne(calls, parent, script[k], alive[k], s);
      s := SystemStep(s, script[k]);
    }
    assert script[..|script|] == script;
  }

  /** One start or event. */
  method PlayOne(calls: seq<Objects.ProcessRun>, parent: Objects.Parent, e: SystemEvent, alive: bool, ghost s: System)
    returns (next: seq<Objects.ProcessRun>)
    requires Represents(calls, parent, s) && SystemEnabled(s, e)
    requires e.Happens? && e.run < |s.runs| ==> alive == !s.runs[e.run].world.groupGone
    modifies parent, calls, States(calls)
    ensures Represents(next, parent, SystemStep(s, e))
    ensures forall c <- next :: c in calls || (fresh(c) && fresh(c.parentSignalState))
  {
    match e
    case Start(options, spawned) =>
      StartIsValid(s, options, spawned);
      hide Represents, SystemStep;
      var call := StartCall(calls, parent, options, spawned, s);
      next := calls + [call];
    case Happens(i, event) =>
      HappensToACall(calls, parent, s, i, event);
      hide Represents, SystemStep, SystemEnabled;
      assert calls[i] in calls;
      Deliver(calls, parent, i, event, alive, s);
      next := calls;
  }

  lemma AnswerAt(script: seq<SystemEvent>, alive: seq<bool>, k: nat, s: System)
    requires k < |script| == |alive| && AllAnswered(script, alive) && Execute(script[..k]) == Some(s)
    ensures script[k].Happens? && script[k].run < |s.runs| ==> alive[k] == !s.runs[script[k].run].world.groupGone
  {
    assert Answers(script, k, alive[k]);
  }

  lemma NothingRuns(script: seq<SystemEvent>)
    ensures Execute(script[..0]) == Some(INITIAL)
  {
  }

  lemma StartIsValid(s: System, options: Options, spawned: bool)
    requires SystemEnabled(s, Start(options, spawned))
    ensures options.Valid()
  {
  }

  lemma HappensToACall(calls: seq<Objects.ProcessRun>, parent: Objects.Parent, s: System, i: nat, event: Event)
    requires Represents(calls, parent, s) && SystemEnabled(s, Happens(i, event))
    ensures i < |calls| == |s.runs| && calls[i].world == s.runs[i].world && calls[i].parent == parent
  {
    hide Enabled;
    assert calls[i].View() == s.runs[i];
  }
}
