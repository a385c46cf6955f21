/** The restart probe's report (scripts/bench-gateway-restart.ts) on the attempts themselves. */
module ProbeMeaning {
  import opened RestartProbe
  import opened Text

  /** An HTTP status of 200 at attempt `j` ends what a different answer at attempt `i`, the first one, began. */
  ghost predicate IsOutage(polls: seq<Poll>, i: nat, j: nat) {
    && i < j < |polls| && polls[i].status != Some(200) && polls[j].status == Some(200)
    && (forall k :: 0 <= k < i ==> polls[k].status == Some(200))
    && (forall k :: i < k < j ==> polls[k].status != Some(200))
  }

  /** The loop gets to attempt `j`: before each attempt the deadline has not come and the process is not done, and it is
      not told to stop while all attempts before, one at least, succeeded. */
  ghost predicate GetsTo(polls: seq<Poll>, deadlineAt: int, j: nat) {
    j < |polls| && forall k :: 0 <= k <= j ==> PassesTo(polls, deadlineAt, k)
  }

  ghost predicate PassesTo(polls: seq<Poll>, deadlineAt: int, k: nat)
    requires k < |polls|
  {
    && polls[k].startedAt < deadlineAt && !polls[k].processDone
    && (polls[k].done && k > 0 ==> exists m :: 0 <= m < k && polls[m].status != Some(200))
  }

  lemma OutageAlike(polls: seq<Poll>, deadlineAt: int, i: nat, j: nat)
    ensures IsOutage(polls, i, j) <==> Outage(polls, i, j)
    ensures j < |polls| ==> (GetsTo(polls, deadlineAt, j) <==> Reaches(polls, deadlineAt, j))
  {
    if j < |polls| {
      forall k: nat | k <= j
        ensures PassesTo(polls, deadlineAt, k) <==>
                && polls[k].startedAt < deadlineAt && !polls[k].processDone
                && !(polls[k].done && k > 0 && AllUp(polls[..k]))
      {
        assert forall m :: 0 <= m < k ==> polls[..k][m] == polls[m];
      }
    }
  }

  /** The loop reports a downtime exactly if it gets to the end of an outage, and then it is the time between the first
      failure and the first success after it. */
  lemma DowntimeExactly(polls: seq<Poll>, deadlineAt: int, signalSentAt: int, result: ProbeResult, downtime: int)
    requires Reports(polls[..Attempts(polls, deadlineAt)], signalSentAt, result)
    ensures result.downtimeMs == Some(downtime) <==>
            exists i: nat, j: nat ::
              IsOutage(polls, i, j) && GetsTo(polls, deadlineAt, j) && downtime == polls[j].now - polls[i].now
  {
    DowntimeIsTheOutage(polls, deadlineAt, signalSentAt, result);
    hide Reports, Attempts, IsOutage, Outage, GetsTo, Reaches;
    forall i: nat, j: nat
      ensures IsOutage(polls, i, j) && GetsTo(polls, deadlineAt, j) <==>
              j < |polls| && Outage(polls, i, j) && Reaches(polls, deadlineAt, j)
    {
      OutageAlike(polls, deadlineAt, i, j);
      GetsInside(polls, deadlineAt, i, j);
    }
  }

  lemma GetsInside(polls: seq<Poll>, deadlineAt: int, i: nat, j: nat)
    ensures GetsTo(polls, deadlineAt, j) || Outage(polls, i, j) ==> j < |polls|
  {
  }

  /** The reported error kind is the first one of the attempts made that is not empty. */
  lemma {:induction false} FirstErrorExactly(seen: seq<Poll>, kind: string)
    ensures FirstError(seen) == Some(kind) <==>
            exists i :: 0 <= i < |seen| && seen[i].errorKind == Some(kind) && kind != ""
                        && forall k :: 0 <= k < i ==> seen[k].errorKind == None || seen[k].errorKind == Some("")
  {
    if seen != [] {
      var n := |seen| - 1;
      var before := seen[..n];
      FirstErrorExactly(before, kind);
      FirstErrorNone(before);
      assert forall k :: 0 <= k < n ==> before[k] == seen[k];
    }
  }

  lemma {:induction false} FirstErrorNone(seen: seq<Poll>)
    ensures FirstError(seen) == None <==>
            forall k :: 0 <= k < |seen| ==> seen[k].errorKind == None || seen[k].errorKind == Some("")
  {
    if seen != [] {
      var n := |seen| - 1;
      FirstErrorNone(seen[..n]);
      assert forall k :: 0 <= k < n ==> seen[..n][k] == seen[k];
    }
  }

  /** Two attempts look alike: same status, and same error kind, where a missing kind reads `ok`. */
  predicate LookAlike(a: Poll, b: Poll) {
    && a.status == b.status
    && (if a.errorKind.None? then "ok" else a.errorKind.value)
       == (if b.errorKind.None? then "ok" else b.errorKind.value)
  }

  /** The transitions are those of the attempts, in order, that do not look like the one before: each with its time, its
      status and its error kind, an empty one left out. */
  lemma TransitionsExactly(seen: seq<Poll>, base: int) returns (at: seq<nat>)
    ensures |at| == |Transitions(seen, base)|
    ensures forall i, j :: 0 <= i < j < |at| ==> at[i] < at[j]
    ensures forall k: nat :: k in at <==> k < |seen| && (k == 0 || !LookAlike(seen[k - 1], seen[k]))
    ensures forall j :: 0 <= j < |at| ==>
              && at[j] < |seen|
              && var poll := seen[at[j]];
                 Transitions(seen, base)[j]
                 == Transition(poll.now - base, poll.status,
                               if poll.errorKind == Some("") then None else poll.errorKind)
  {
    at := ChangePoints(seen);
    ChangePointsAreTheChanges(seen);
    hide ChangePoints, StateKey;
    forall k: nat | 0 < k < |seen| ensures Changes(seen, k) <==> !LookAlike(seen[k - 1], seen[k]) {
      SameKeySameState(seen[k], seen[k - 1]);
    }
  }
}
