/** What the release-ref protocol (scripts/mobile-release-ref.ts) gets done: which git calls change or report what, and
    that recorders of one commit never fail each other. */
module ReleaseProgress {
  import opened ReleaseRefs

  /** No call without network claims a success, and the only change it can leave is that of a push whose reply was
      lost. */
  lemma LostCallsFail(refs: Refs, run: Run, network: Network)
    requires !run.stage.Finished? && !network.Works?
    ensures var (after, stage) := Advance(refs, run, network);
            && (stage == Finished(PushFailed) || stage == Finished(InspectFailed))
            && (stage == Finished(PushFailed) <==> run.command.Record? && run.stage.Available?)
            && (after != refs ==>
                  && run.command.Record? && run.stage.Available? && network.ReplyLost?
                  && run.ref !in refs && after == refs[run.ref := run.command.sha])
  {
    if run.command.Record? && run.ref in refs && refs[run.ref] == run.command.sha {
      assert refs[run.ref := run.command.sha] == refs;
    }
  }

  /** A call that goes through, or the begin of a run that records, if it records this ref, this commit. */
  predicate Harmless(e: Event, ref: string, sha: string) {
    match e
    case Begin(r, Record(s)) => r == ref ==> s == sha
    case Begin(_, Resolve) => true
    case Call(_, network) => network.Works?
    case Outside(_, _) => false
  }

  /** Every call goes through, nobody else writes, and whoever records this ref records this commit. */
  ghost predicate OneCommit(events: seq<Event>, ref: string, sha: string) {
    forall e <- events :: Harmless(e, ref, sha)
  }

  /** The ref is absent or at the commit, and no run of it has failed. */
  ghost predicate Smooth(w: World, ref: string, sha: string) {
    && (ref in w.refs ==> w.refs[ref] == sha)
    && forall run <- w.runs :: run.ref == ref ==> RunsWell(run, sha)
  }

  ghost predicate RunsWell(run: Run, sha: string) {
    && (run.command.Record? ==> run.command.sha == sha)
    && match run.stage
       case Starting => true
       case Finished(result) =>
         if run.command.Record? then result == Created || result == AlreadyRecorded
         else result == Resolved(sha) || result == Missing
       case _ => run.command.Record?
  }

  lemma AdvanceIsSmooth(refs: Refs, run: Run, ref: string, sha: string)
    requires Knows(refs, run) && !run.stage.Finished? && (ref in refs ==> refs[ref] == sha)
    requires run.ref == ref ==> RunsWell(run, sha)
    ensures var (after, stage) := Advance(refs, run, Works);
            (ref in after ==> after[ref] == sha) && (run.ref == ref ==> RunsWell(run.(stage := stage), sha))
  {
  }

  lemma StepIsSmooth(w: World, e: Event, ref: string, sha: string)
    requires Inv(w) && Smooth(w, ref, sha) && Enabled(w, e) && Harmless(e, ref, sha)
    ensures Smooth(Step(w, e), ref, sha)
  {
    hide Knows, Advance, RunsWell;
    match e
    case Begin(r, command) =>
      assert r == ref ==> RunsWell(Run(r, command, Starting), sha) by { StartsWell(r, command, sha); }
    case Call(i, network) =>
      assert w.runs[i] in w.runs;
      AdvanceIsSmooth(w.refs, w.runs[i], ref, sha);
  }

  lemma StartsWell(ref: string, command: Command, sha: string)
    ensures (command.Record? ==> command.sha == sha) ==> RunsWell(Run(ref, command, Starting), sha)
  {
  }

  lemma {:induction false} StaysSmooth(refs: Refs, events: seq<Event>, ref: string, sha: string)
    requires OneCommit(events, ref, sha) && (ref in refs ==> refs[ref] == sha)
    requires Execute(Fresh(refs), events).Some?
    ensures Smooth(Execute(Fresh(refs), events).value, ref, sha)
  {
    if events != [] {
      hide Step, Enabled, Inv, Smooth;
      var n := |events| - 1;
      assert events[n] in events && forall e <- events[..n] :: e in events;
      StaysSmooth(refs, events[..n], ref, sha);
      assert Inv(Fresh(refs)) by { NothingRuns(refs); }
      assert forall e <- events[..n] :: Harmless(e, ref, sha) && !e.Outside?;
      RefsAreWriteOnce(Fresh(refs), events[..n]);
      StepIsSmooth(Execute(Fresh(refs), events[..n]).value, events[n], ref, sha);
    }
  }

  lemma NothingRuns(refs: Refs)
    ensures Inv(Fresh(refs))
  {
  }

  /** Recorders of one commit never fail each other: on every interleaving in which the network works and everybody who
      records the ref records this commit, every run of it that has finished succeeded, the ones that raced for the push
      included; a resolve finds the commit or nothing yet. */
  lemma OneCommitAlwaysSucceeds(refs: Refs, events: seq<Event>, ref: string, sha: string, i: nat)
    requires OneCommit(events, ref, sha) && (ref in refs ==> refs[ref] == sha)
    requires Execute(Fresh(refs), events).Some? && i < |Execute(Fresh(refs), events).value.runs|
    ensures var run := Execute(Fresh(refs), events).value.runs[i];
            run.ref == ref && run.stage.Finished? ==>
              if run.command.Record? then run.stage.result == Created || run.stage.result == AlreadyRecorded
              else run.stage.result == Resolved(sha) || run.stage.result == Missing
  {
    StaysSmooth(refs, events, ref, sha);
    var w := Execute(Fresh(refs), events).value;
    hide Execute;
    assert w.runs[i] in w.runs;
  }
}
