/** The write-once release-ref protocol (scripts/mobile-release-ref.ts): any number of `record` and `resolve` runs
    against one remote, each a sequence of single git calls, interleaved in any way. */
module ReleaseRefs {
  import opened Text

  type Refs = map<string, string>

  /** What the network does to one git call. A push can be lost on the way there, or succeed and lose its reply. */
  datatype Network = Works | RequestLost | ReplyLost

  datatype RunResult =
    | Created
    | AlreadyRecorded
    | Conflict(existing: string)
    | PushFailed
    | Mismatch(found: Option<string>)
    | InspectFailed
    | Resolved(sha: string)
    | Missing

  /** Where a run stands: before its first read, between preflight and push, between push and verification. */
  datatype Stage = Starting | Available | Pushed | Finished(result: RunResult)

  datatype Command = Record(sha: string) | Resolve

  datatype Run = Run(ref: string, command: Command, stage: Stage)

  function Lookup(refs: Refs, ref: string): Option<string> {
    if ref in refs then Some(refs[ref]) else None
  }

  /** `git push --force-with-lease=<ref>:`: refused unless the ref is absent or already at `sha`. */
  predicate LeaseHolds(refs: Refs, ref: string, sha: string) {
    ref !in refs || refs[ref] == sha
  }

  /** `preflightMobileReleaseRef` after its read of the remote. */
  function Preflight(found: Option<string>, sha: string): Stage {
    match found
    case None => Available
    case Some(existing) => if existing == sha then Finished(AlreadyRecorded) else Finished(Conflict(existing))
  }

  /** The verification at the end of `recordMobileReleaseRef`. */
  function Verify(found: Option<string>, sha: string): RunResult {
    if found == Some(sha) then Created else Mismatch(found)
  }

  /** The next git call of a run: the remote after it, and where the run stands then. */
  function Advance(refs: Refs, run: Run, network: Network): (Refs, Stage)
    requires !run.stage.Finished?
  {
    match (run.command, run.stage)
    case (Record(sha), Starting) =>
      (refs, if network.Works? then Preflight(Lookup(refs, run.ref), sha) else Finished(InspectFailed))
    case (Record(sha), Available) =>
      var applied := !network.RequestLost? && LeaseHolds(refs, run.ref, sha);
      (if applied then refs[run.ref := sha] else refs,
       if applied && network.Works? then Pushed else Finished(PushFailed))
    case (Record(sha), _) =>
      (refs, Finished(if network.Works? then Verify(Lookup(refs, run.ref), sha) else InspectFailed))
    case (Resolve, _) =>
      var found := Lookup(refs, run.ref);
      (refs, Finished(if !network.Works? then InspectFailed
                      else if found.Some? then Resolved(found.value) else Missing))
  }

  datatype World = World(refs: Refs, runs: seq<Run>)

  /** A new run, one git call of a run, or a write to the remote by somebody else. */
  datatype Event =
    | Begin(ref: string, command: Command)
    | Call(run: nat, network: Network)
    | Outside(ref: string, sha: Option<string>)

  predicate Enabled(w: World, e: Event) {
    e.Call? ==> e.run < |w.runs| && !w.runs[e.run].stage.Finished?
  }

  function Step(w: World, e: Event): World
    requires Enabled(w, e)
  {
    match e
    case Begin(ref, command) => w.(runs := w.runs + [Run(ref, command, Starting)])
    case Call(i, network) =>
      var (refs, stage) := Advance(w.refs, w.runs[i], network);
      World(refs, w.runs[i := w.runs[i].(stage := stage)])
    case Outside(ref, sha) => w.(refs := if sha.Some? then w.refs[ref := sha.value] else w.refs - {ref})
  }

  /** The world after a run of events from `w`; None as soon as one of them cannot happen. */
  function Execute(w: World, events: seq<Event>): Option<World> {
    if events == [] then Some(w)
    else
      match Execute(w, events[..|events| - 1])
      case None => None
      case Some(w1) =>
        if Enabled(w1, events[|events| - 1]) then Some(Step(w1, events[|events| - 1])) else None
  }

  /** Nobody but the recorders writes to the remote. */
  ghost predicate OnlyRecorders(events: seq<Event>) {
    forall e <- events :: !e.Outside?
  }

  /** What a run may claim to know about the remote. */
  ghost predicate Knows(refs: Refs, run: Run) {
    match run.stage
    case Starting => true
    case Available => run.command.Record?
    case Pushed => run.command.Record? && Lookup(refs, run.ref) == Some(run.command.sha)
    case Finished(result) =>
      match result
      case Created => run.command.Record? && Lookup(refs, run.ref) == Some(run.command.sha)
      case AlreadyRecorded => run.command.Record? && Lookup(refs, run.ref) == Some(run.command.sha)
      case Conflict(existing) =>
        run.command.Record? && Lookup(refs, run.ref) == Some(existing) && existing != run.command.sha
      case Resolved(sha) => Lookup(refs, run.ref) == Some(sha)
      case Mismatch(_) => false
      case _ => true
  }

  ghost predicate Inv(w: World) {
    forall run <- w.runs :: Knows(w.refs, run)
  }

  /** Every ref of `a` is in `b`, at the same commit. */
  ghost predicate Extends(a: Refs, b: Refs) {
    forall ref <- a :: ref in b && b[ref] == a[ref]
  }

  lemma KnowledgeStays(a: Refs, b: Refs, run: Run)
    requires Extends(a, b) && Knows(a, run)
    ensures Knows(b, run)
  {
  }

  /** One git call never changes a ref that exists, and learns only the truth. */
  lemma AdvanceIsHonest(refs: Refs, run: Run, network: Network)
    requires Knows(refs, run) && !run.stage.Finished?
    ensures var (after, stage) := Advance(refs, run, network);
            Extends(refs, after) && Knows(after, run.(stage := stage))
  {
  }

  lemma StepInv(w: World, e: Event)
    requires Inv(w) && Enabled(w, e) && !e.Outside?
    ensures Inv(Step(w, e)) && Extends(w.refs, Step(w, e).refs)
  {
    hide Knows, Advance;
    match e
    case Begin(ref, command) =>
      assert Knows(w.refs, Run(ref, command, Starting)) by { NewRunKnows(w.refs, ref, command); }
    case Call(i, network) =>
      var next := Step(w, e);
      assert w.runs[i] in w.runs;
      AdvanceIsHonest(w.refs, w.runs[i], network);
      forall run | run in next.runs ensures Knows(next.refs, run) {
        if run in w.runs {
          KnowledgeStays(w.refs, next.refs, run);
        }
      }
  }

  lemma NewRunKnows(refs: Refs, ref: string, command: Command)
    ensures Knows(refs, Run(ref, command, Starting))
  {
  }

  /** On every interleaving: refs are write-once, and no run is ever wrong about the remote. */
  lemma {:induction false} RefsAreWriteOnce(w: World, events: seq<Event>)
    requires Inv(w) && OnlyRecorders(events) && Execute(w, events).Some?
    ensures Inv(Execute(w, events).value) && Extends(w.refs, Execute(w, events).value.refs)
  {
    if events != [] {
      hide Inv, Step, Enabled;
      var before := events[..|events| - 1];
      RefsAreWriteOnce(w, before);
      StepInv(Execute(w, before).value, events[|events| - 1]);
    } else {
      assert Extends(w.refs, w.refs);
    }
  }

  /** A remote with whatever refs it has, before any run. */
  function Fresh(refs: Refs): World { World(refs, []) }

  predicate Succeeded(run: Run) { run.stage == Finished(Created) || run.stage == Finished(AlreadyRecorded) }

  lemma KnownRunsAgree(refs: Refs, a: Run, b: Run)
    requires Knows(refs, a) && Knows(refs, b)
    ensures !(a.stage.Finished? && a.stage.result.Mismatch?)
    ensures Succeeded(a) && a.ref == b.ref ==>
              && (Succeeded(b) ==> a.command == b.command)
              && (b.stage.Finished? && b.stage.result.Resolved? ==> a.command == Record(b.stage.result.sha))
              && (b.stage.Finished? && b.stage.result.Conflict? ==> a.command == Record(b.stage.result.existing))
  {
  }

  /** Runs that succeed on a ref agree on its commit, every successful resolve of the ref returns that commit, whether
      it ran before or after, and the mismatch error is unreachable. */
  lemma RecordersAgree(refs: Refs, events: seq<Event>)
    requires OnlyRecorders(events) && Execute(Fresh(refs), events).Some?
    ensures var w := Execute(Fresh(refs), events).value;
            && (forall a <- w.runs, b <- w.runs :: Succeeded(a) && Succeeded(b) && a.ref == b.ref ==>
                  a.command == b.command)
            && (forall a <- w.runs, b <- w.runs ::
                  Succeeded(a) && b.stage.Finished? && b.stage.result.Resolved? && a.ref == b.ref ==>
                  a.command == Record(b.stage.result.sha))
            && (forall a <- w.runs, b <- w.runs ::
                  Succeeded(a) && b.stage.Finished? && b.stage.result.Conflict? && a.ref == b.ref ==>
                  a.command == Record(b.stage.result.existing))
            && (forall run <- w.runs :: !(run.stage.Finished? && run.stage.result.Mismatch?))
  {
    RefsAreWriteOnce(Fresh(refs), events);
    var w := Execute(Fresh(refs), events).value;
    hide Execute, Knows;
    forall run | run in w.runs ensures !(run.stage.Finished? && run.stage.result.Mismatch?) {
      KnownRunsAgree(w.refs, run, run);
    }
    forall a, b | a in w.runs && b in w.runs && Succeeded(a) && a.ref == b.ref
      ensures Succeeded(b) ==> a.command == b.command
      ensures b.stage.Finished? && b.stage.result.Resolved? ==> a.command == Record(b.stage.result.sha)
      ensures b.stage.Finished? && b.stage.result.Conflict? ==> a.command == Record(b.stage.result.existing)
    {
      KnownRunsAgree(w.refs, a, b);
    }
  }

  lemma {:induction false} ExecuteSplit(w: World, a: seq<Event>, b: seq<Event>)
    ensures Execute(w, a + b) == match Execute(w, a) case None => None case Some(w1) => Execute(w1, b)
  {
    if b == [] {
      assert a + b == a;
    } else {
      assert (a + b)[..|a + b| - 1] == a + b[..|b| - 1];
      ExecuteSplit(w, a, b[..|b| - 1]);
    }
  }

  /** Once a run has succeeded, any later read of its ref that gets through, after any further events, finds its
      commit: a resolve returns it, and another record of the same release is told so. */
  lemma LaterReadsFindIt(refs: Refs, events: seq<Event>, more: seq<Event>, done: nat, reader: nat)
    requires OnlyRecorders(events + more) && Execute(Fresh(refs), events + more).Some?
    ensures Execute(Fresh(refs), events).Some?
    ensures var w, later := Execute(Fresh(refs), events).value, Execute(Fresh(refs), events + more).value;
            done < |w.runs| && Succeeded(w.runs[done]) && reader < |later.runs| && later.runs[reader].stage.Starting?
            && later.runs[reader].ref == w.runs[done].ref ==>
              && w.runs[done].command.Record?
              && var sha := w.runs[done].command.sha;
                 var read := Advance(later.refs, later.runs[reader], Works).1;
                 && (later.runs[reader].command.Resolve? ==> read == Finished(Resolved(sha)))
                 && (later.runs[reader].command.Record? ==>
                       read == Finished(if later.runs[reader].command.sha == sha then AlreadyRecorded
                                        else Conflict(sha)))
  {
    ExecuteSplit(Fresh(refs), events, more);
    assert forall e <- events :: e in events + more;
    assert forall e <- more :: e in events + more;
    RefsAreWriteOnce(Fresh(refs), events);
    var w := Execute(Fresh(refs), events).value;
    RefsAreWriteOnce(w, more);
    if done < |w.runs| {
      assert w.runs[done] in w.runs;
    }
  }

  lemma ExecuteSnoc(w: World, events: seq<Event>, w1: World, e: Event)
    requires Execute(w, events) == Some(w1) && Enabled(w1, e)
    ensures Execute(w, events + [e]) == Some(Step(w1, e))
  {
  }

  /** The verification read is not idle: a ref deleted by somebody else between push and verification is noticed. */
  lemma OutsideWritesAreNoticed(ref: string, sha: string) returns (events: seq<Event>)
    ensures Execute(Fresh(map[]), events)
         == Some(World(map[], [Run(ref, Record(sha), Finished(Mismatch(None)))]))
  {
    var w0 := Fresh(map[]);
    var run := Run(ref, Record(sha), Starting);
    ExecuteSnoc(w0, [], w0, Begin(ref, Record(sha)));
    events := [] + [Begin(ref, Record(sha))];
    var w1 := World(map[], [run]);
    assert Step(w0, Begin(ref, Record(sha))).runs == [run];
    ExecuteSnoc(w0, events, w1, Call(0, Works));
    events := events + [Call(0, Works)];
    var w2 := World(map[], [run.(stage := Available)]);
    assert Step(w1, Call(0, Works)).runs == w2.runs;
    ExecuteSnoc(w0, events, w2, Call(0, Works));
    events := events + [Call(0, Works)];
    var w3 := World(map[ref := sha], [run.(stage := Pushed)]);
    assert Step(w2, Call(0, Works)).runs == w3.runs;
    ExecuteSnoc(w0, events, w3, Outside(ref, None));
    events := events + [Outside(ref, None)];
    var w4 := World(map[], [run.(stage := Pushed)]);
    assert w3.refs - {ref} == map[];
    ExecuteSnoc(w0, events, w4, Call(0, Works));
    events := events + [Call(0, Works)];
    assert Step(w4, Call(0, Works)).runs == [run.(stage := Finished(Mismatch(None)))];
  }

  /** The remote repository as an object. */
  class Remote {
    var refs: Refs

    constructor (refs: Refs)
      ensures this.refs == refs
    {
      this.refs := refs;
    }

    /** `readRemoteRef`. */
    method Read(ref: string) returns (found: Option<string>)
      ensures found == Lookup(refs, ref)
    {
      found := if ref in refs then Some(refs[ref]) else None;
    }

    method PushWithLease(ref: string, sha: string) returns (ok: bool)
      modifies this
      ensures ok == LeaseHolds(old(refs), ref, sha)
      ensures refs == if ok then old(refs)[ref := sha] else old(refs)
    {
      ok := ref !in refs || refs[ref] == sha;
      if ok {
        refs := refs[ref := sha];
      }
    }
  }

  /** One run as an object, making one git call at a time. */
  class Recorder {
    const remote: Remote
    const ref: string
    const command: Command
    var stage: Stage

    ghost function View(): Run
      reads this
    {
      Run(ref, command, stage)
    }

    constructor (remote: Remote, ref: string, command: Command)
      ensures View() == Run(ref, command, Starting) && this.remote == remote
    {
      this.remote := remote;
      this.ref := ref;
      this.command := command;
      stage := Starting;
    }

    /** The next git call. */
    method Next(network: Network)
      requires !stage.Finished?
      modifies this, remote
      ensures (remote.refs, stage) == Advance(old(remote.refs), old(View()), network)
    {
      if stage.Available? && command.Record? {
        var ok := false;
        if network != RequestLost {
          ok := remote.PushWithLease(ref, command.sha);
        }
        stage := if ok && network == Works then Pushed else Finished(PushFailed);
        return;
      }
      if network != Works {
        stage := Finished(InspectFailed);
        return;
      }
      var found := remote.Read(ref);
      match command
      case Resolve =>
        stage := Finished(if found.Some? then Resolved(found.value) else Missing);
      case Record(sha) =>
        if stage.Starting? {
          stage := if found.None? then Available
                   else if found.value == sha then Finished(AlreadyRecorded)
                   else Finished(Conflict(found.value));
        } else {
          stage := Finished(if found == Some(sha) then Created else Mismatch(found));
        }
    }
  }

  /** `recordMobileReleaseRef` without interruption and over a working network: it creates the ref, or reports it as
      recorded, or refuses, and it never moves a ref. */
  method RecordMobileReleaseRef(remote: Remote, ref: string, sha: string) returns (result: RunResult)
    modifies remote
    ensures result == match Lookup(old(remote.refs), ref)
                      case None => Created
                      case Some(existing) => if existing == sha then AlreadyRecorded else Conflict(existing)
    ensures remote.refs == if result == Created then old(remote.refs)[ref := sha] else old(remote.refs)
  {
    var run := new Recorder(remote, ref, Record(sha));
    run.Next(Works);
    if run.stage.Available? {
      run.Next(Works);
      run.Next(Works);
    }
    result := run.stage.result;
  }
}
