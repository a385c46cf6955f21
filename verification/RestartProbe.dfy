/** The polling loop that measures how long a restarted gateway stays unreachable. */
module RestartProbe {
  import opened Text

  /** What one turn of the loop sees: the clock at the loop test, the two callbacks, the attempt, the clock after it. */
  datatype Poll = Poll(startedAt: int, processDone: bool, done: bool,
                       status: Option<nat>, errorKind: Option<string>, now: int)

  datatype Transition = Transition(ms: int, status: Option<nat>, errorKind: Option<string>)

  datatype ProbeResult = ProbeResult(downtimeMs: Option<int>, firstErrorKind: Option<string>,
                                     firstRecoveryMs: Option<int>, ms: Option<int>, status: Option<nat>,
                                     transitions: seq<Transition>, unavailableMs: Option<int>)

  /** An empty error kind counts as no error kind. */
  function Truthy(kind: Option<string>): Option<string> {
    if kind == Some("") then None else kind
  }

  function StatusLabel(status: Option<nat>): string {
    if status.Some? then Decimal(status.value) else "none"
  }

  function KindLabel(kind: Option<string>): string {
    if kind.Some? then kind.value else "ok"
  }

  function StateKey(poll: Poll): string {
    StatusLabel(poll.status) + ":" + KindLabel(poll.errorKind)
  }

  predicate Up(poll: Poll) { poll.status == Some(200) }

  // ---------- when the loop stops ----------

  predicate AllUp(seen: seq<Poll>) { forall i :: 0 <= i < |seen| ==> Up(seen[i]) }

  /** The last attempt succeeded and an earlier one did not. */
  predicate Recovered(seen: seq<Poll>) {
    seen != [] && Up(seen[|seen| - 1]) && !AllUp(seen)
  }

  /** No attempt follows the first `n`. */
  predicate Stops(polls: seq<Poll>, deadlineAt: int, n: nat)
    requires n <= |polls|
  {
    || n == |polls|
    || Recovered(polls[..n])
    || polls[n].startedAt >= deadlineAt
    || polls[n].processDone
    || (polls[n].done && n > 0 && AllUp(polls[..n]))
  }

  /** How many attempts the loop makes. */
  function Attempts(polls: seq<Poll>, deadlineAt: int, from: nat := 0): (n: nat)
    requires from <= |polls|
    ensures from <= n <= |polls|
    ensures Stops(polls, deadlineAt, n)
    ensures forall m :: from <= m < n ==> !Stops(polls, deadlineAt, m)
    decreases |polls| - from
  {
    if Stops(polls, deadlineAt, from) then from else Attempts(polls, deadlineAt, from + 1)
  }

  // ---------- what the loop reports ----------

  ghost predicate FirstDown(seen: seq<Poll>, i: nat) {
    i < |seen| && !Up(seen[i]) && forall k :: 0 <= k < i ==> Up(seen[k])
  }

  /** The first non-empty error kind. */
  function FirstError(seen: seq<Poll>): Option<string> {
    if seen == [] then None
    else
      var earlier := FirstError(seen[..|seen| - 1]);
      if earlier.Some? then earlier else Truthy(seen[|seen| - 1].errorKind)
  }

  predicate Changes(seen: seq<Poll>, i: nat)
    requires i < |seen|
  {
    i == 0 || StateKey(seen[i]) != StateKey(seen[i - 1])
  }

  /** The attempts at which the state changes, in order. */
  function ChangePoints(seen: seq<Poll>): (points: seq<nat>)
    ensures forall k :: 0 <= k < |points| ==> points[k] < |seen|
  {
    if seen == [] then []
    else
      var last := |seen| - 1;
      ChangePoints(seen[..last]) + if Changes(seen, last) then [last] else []
  }

  function TransitionOf(poll: Poll, base: int): Transition {
    Transition(poll.now - base, poll.status, Truthy(poll.errorKind))
  }

  function Transitions(seen: seq<Poll>, base: int): (transitions: seq<Transition>)
    ensures |transitions| == |ChangePoints(seen)|
  {
    var points := ChangePoints(seen);
    seq(|points|, k requires 0 <= k < |points| => TransitionOf(seen[points[k]], base))
  }

  /** The report the loop owes after the attempts `seen`, with times counted from the restart signal. */
  ghost predicate Reports(seen: seq<Poll>, signalSentAt: int, result: ProbeResult) {
    && result.transitions == Transitions(seen, signalSentAt)
    && result.firstErrorKind == FirstError(seen)
    && result.status == (if seen == [] then None else seen[|seen| - 1].status)
    && (AllUp(seen) ==>
          && result.unavailableMs == None
          && result.ms == (if seen == [] then None else Some(seen[|seen| - 1].now - signalSentAt)))
    && (forall i: nat :: FirstDown(seen, i) ==> result.unavailableMs == Some(seen[i].now - signalSentAt))
    && (Recovered(seen) ==>
          && result.unavailableMs.Some?
          && result.ms == Some(seen[|seen| - 1].now - signalSentAt)
          && result.firstRecoveryMs == result.ms
          && result.downtimeMs == Some(result.ms.value - result.unavailableMs.value))
    && (!Recovered(seen) ==>
          && result.downtimeMs == None
          && result.firstRecoveryMs == None
          && (!AllUp(seen) ==> result.ms == None))
  }

  /** The loop's own step on `unavailableMs`. */
  ghost predicate Tracks(seen: seq<Poll>, signalSentAt: int, unavailableMs: Option<int>, lastSuccessMs: Option<int>) {
    && (unavailableMs == None <==> AllUp(seen))
    && (forall i: nat :: FirstDown(seen, i) ==> unavailableMs == Some(seen[i].now - signalSentAt))
    && (AllUp(seen) ==>
          lastSuccessMs == if seen == [] then None else Some(seen[|seen| - 1].now - signalSentAt))
  }

  lemma AttemptsStep(polls: seq<Poll>, deadlineAt: int, n: nat)
    requires n <= |polls|
    ensures Attempts(polls, deadlineAt, n)
            == if Stops(polls, deadlineAt, n) then n else Attempts(polls, deadlineAt, n + 1)
  {
  }

  lemma NothingSeen(base: int)
    ensures Transitions([], base) == [] && FirstError([]) == None && Tracks([], base, None, None)
  {
  }

  lemma LastIsUp(seen: seq<Poll>)
    ensures AllUp(seen) && seen != [] ==> Up(seen[|seen| - 1])
  {
  }

  lemma StepSeen(polls: seq<Poll>, turn: nat, base: int)
    requires 0 < turn <= |polls|
    ensures Transitions(polls[..turn], base) ==
            Transitions(polls[..turn - 1], base)
            + if turn == 1 || StateKey(polls[turn - 1]) != StateKey(polls[turn - 2])
              then [TransitionOf(polls[turn - 1], base)] else []
    ensures FirstError(polls[..turn]) ==
            if FirstError(polls[..turn - 1]).Some? then FirstError(polls[..turn - 1])
            else Truthy(polls[turn - 1].errorKind)
    ensures AllUp(polls[..turn]) <==> AllUp(polls[..turn - 1]) && Up(polls[turn - 1])
  {
    assert polls[..turn][..turn - 1] == polls[..turn - 1];
    assert polls[..turn] == polls[..turn - 1] + [polls[turn - 1]];
  }

  lemma StepTracks(polls: seq<Poll>, turn: nat, base: int, was: Option<int>, lastSuccessMs: Option<int>,
                   unavailableMs: Option<int>, newSuccessMs: Option<int>)
    requires 0 < turn <= |polls|
    requires Tracks(polls[..turn - 1], base, was, lastSuccessMs)
    requires unavailableMs == if !Up(polls[turn - 1]) && was == None then Some(polls[turn - 1].now - base) else was
    requires newSuccessMs == if Up(polls[turn - 1]) then Some(polls[turn - 1].now - base) else lastSuccessMs
    ensures Tracks(polls[..turn], base, unavailableMs, newSuccessMs)
  {
    hide Up;
    var seen, before := polls[..turn], polls[..turn - 1];
    assert seen == before + [polls[turn - 1]];
    forall i: nat | FirstDown(seen, i) ensures unavailableMs == Some(seen[i].now - base) {
      assert forall k :: 0 <= k < |before| ==> seen[k] == before[k];
      assert i < turn - 1 ==> FirstDown(before, i);
    }
  }

  method WaitForRestartProbe(polls: seq<Poll>, deadlineAt: int, sampleStartAt: int, signalSentAt: int)
    returns (result: ProbeResult, events: seq<Transition>)
    ensures Reports(polls[..Attempts(polls, deadlineAt)], signalSentAt, result)
    ensures events == Transitions(polls[..Attempts(polls, deadlineAt)], sampleStartAt)
  {
    hide Transitions, StateKey, FirstError, FirstDown, Attempts, AllUp;
    NothingSeen(sampleStartAt);
    NothingSeen(signalSentAt);
    var firstErrorKind: Option<string>, lastStatus: Option<nat>, lastStateKey: Option<string> := None, None, None;
    var lastSuccessMs: Option<int>, unavailableMs: Option<int> := None, None;
    var transitions: seq<Transition> := [];
    events := [];
    var turn := 0;
    while turn < |polls| && polls[turn].startedAt < deadlineAt
      invariant turn <= |polls|
      invariant !Recovered(polls[..turn])
      invariant Attempts(polls, deadlineAt) == Attempts(polls, deadlineAt, turn)
      invariant transitions == Transitions(polls[..turn], signalSentAt)
      invariant events == Transitions(polls[..turn], sampleStartAt)
      invariant firstErrorKind == FirstError(polls[..turn])
      invariant lastStatus == if turn == 0 then None else polls[turn - 1].status
      invariant lastStateKey == if turn == 0 then None else Some(StateKey(polls[turn - 1]))
      invariant Tracks(polls[..turn], signalSentAt, unavailableMs, lastSuccessMs)
    {
      var poll := polls[turn];
      ghost var was, lastWas := unavailableMs, lastSuccessMs;
      AttemptsStep(polls, deadlineAt, turn);
      if poll.processDone {
        break;
      }
      if poll.done && unavailableMs == None && lastSuccessMs != None {
        LastIsUp(polls[..turn]);
        result := ProbeResult(None, firstErrorKind, None, lastSuccessMs, Some(200), transitions, None);
        return;
      }
      var elapsedMs := poll.now - signalSentAt;
      lastStatus := poll.status;
      var stateKey := StateKey(poll);
      if Some(stateKey) != lastStateKey {
        transitions := transitions + [Transition(elapsedMs, poll.status, Truthy(poll.errorKind))];
        events := events + [Transition(poll.now - sampleStartAt, poll.status, Truthy(poll.errorKind))];
        lastStateKey := Some(stateKey);
      }
      if Truthy(poll.errorKind).Some? && firstErrorKind == None {
        firstErrorKind := poll.errorKind;
      }
      if poll.status != Some(200) && unavailableMs == None {
        unavailableMs := Some(elapsedMs);
      }
      if poll.status == Some(200) {
        lastSuccessMs := Some(elapsedMs);
      }
      turn := turn + 1;
      StepTracks(polls, turn, signalSentAt, was, lastWas, unavailableMs, lastSuccessMs);
      StepSeen(polls, turn, sampleStartAt);
      StepSeen(polls, turn, signalSentAt);
      if poll.status == Some(200) && unavailableMs != None {
        AttemptsStep(polls, deadlineAt, turn);
        result := ProbeResult(Some(elapsedMs - unavailableMs.value), firstErrorKind, Some(elapsedMs), Some(elapsedMs),
                              poll.status, transitions, unavailableMs);
        return;
      }
    }
    AttemptsStep(polls, deadlineAt, turn);
    result := ProbeResult(None, firstErrorKind, None, if unavailableMs == None then lastSuccessMs else None,
                          lastStatus, transitions, unavailableMs);
  }

  // ---------- what the report means ----------

  /** `j` is the first success after the first failure `i`. */
  ghost predicate Outage(polls: seq<Poll>, i: nat, j: nat) {
    && i < j < |polls| && FirstDown(polls, i) && Up(polls[j])
    && forall k :: i < k < j ==> !Up(polls[k])
  }

  /** Nothing but a recovery may end the loop before it has made attempts 0 to `j`. */
  predicate Reaches(polls: seq<Poll>, deadlineAt: int, j: nat)
    requires j < |polls|
  {
    forall k :: 0 <= k <= j ==>
      && polls[k].startedAt < deadlineAt && !polls[k].processDone
      && !(polls[k].done && k > 0 && AllUp(polls[..k]))
  }

  ghost predicate ReportsOutage(down: Poll, up: Poll, signalSentAt: int, result: ProbeResult) {
    && result.unavailableMs == Some(down.now - signalSentAt)
    && result.ms == result.firstRecoveryMs == Some(up.now - signalSentAt)
    && result.downtimeMs == Some(up.now - down.now)
    && result.status == Some(200)
  }

  /** A downtime is reported exactly when the loop reaches the end of an outage, and it is that outage's length. */
  lemma DowntimeIsTheOutage(polls: seq<Poll>, deadlineAt: int, signalSentAt: int, result: ProbeResult)
    requires Reports(polls[..Attempts(polls, deadlineAt)], signalSentAt, result)
    ensures result.downtimeMs.Some? <==> exists i: nat, j: nat :: Outage(polls, i, j) && Reaches(polls, deadlineAt, j)
    ensures forall i: nat, j: nat :: Outage(polls, i, j) && Reaches(polls, deadlineAt, j) ==>
              ReportsOutage(polls[i], polls[j], signalSentAt, result)
  {
    hide Transitions, FirstError, Attempts, Reaches, FirstDown, AllUp;
    var n := Attempts(polls, deadlineAt);
    if Recovered(polls[..n]) {
      var i := RecoveryEndsOutage(polls, deadlineAt);
      assert Outage(polls, i, n - 1) && Reaches(polls, deadlineAt, n - 1);
    }
    forall i: nat, j: nat | Outage(polls, i, j) && Reaches(polls, deadlineAt, j)
      ensures ReportsOutage(polls[i], polls[j], signalSentAt, result)
    {
      OutageIsReported(polls, deadlineAt, signalSentAt, result, i, j);
    }
  }

  lemma OutageIsReported(polls: seq<Poll>, deadlineAt: int, signalSentAt: int, result: ProbeResult, i: nat, j: nat)
    requires Reports(polls[..Attempts(polls, deadlineAt)], signalSentAt, result)
    requires Outage(polls, i, j) && Reaches(polls, deadlineAt, j)
    ensures ReportsOutage(polls[i], polls[j], signalSentAt, result)
  {
    hide Transitions, FirstError, Attempts, Reaches, AllUp, FirstDown;
    OutageStopsTheLoop(polls, deadlineAt, i, j);
    assert polls[..j + 1][j] == polls[j] && polls[..j + 1][i] == polls[i];
  }

  lemma RecoveryEndsOutage(polls: seq<Poll>, deadlineAt: int) returns (i: nat)
    requires Recovered(polls[..Attempts(polls, deadlineAt)])
    ensures Attempts(polls, deadlineAt) > 0
    ensures Outage(polls, i, Attempts(polls, deadlineAt) - 1)
    ensures Reaches(polls, deadlineAt, Attempts(polls, deadlineAt) - 1)
  {
    var n := Attempts(polls, deadlineAt);
    i := 0;
    while Up(polls[i])
      invariant i < n && forall k :: 0 <= k < i ==> Up(polls[k])
      decreases n - i
    {
      if i == n - 1 {
        assert AllUp(polls[..n]);
      }
      i := i + 1;
    }
    forall k | i < k < n - 1 ensures !Up(polls[k]) {
      assert !Stops(polls, deadlineAt, k + 1);
      assert polls[..k + 1][i] == polls[i];
    }
    forall k | 0 <= k <= n - 1
      ensures polls[k].startedAt < deadlineAt && !polls[k].processDone && !(polls[k].done && k > 0 && AllUp(polls[..k]))
    {
      assert !Stops(polls, deadlineAt, k);
    }
  }

  lemma OutageStopsTheLoop(polls: seq<Poll>, deadlineAt: int, i: nat, j: nat)
    requires Outage(polls, i, j) && Reaches(polls, deadlineAt, j)
    ensures Attempts(polls, deadlineAt) == j + 1
    ensures Recovered(polls[..j + 1]) && FirstDown(polls[..j + 1], i)
  {
    var n := Attempts(polls, deadlineAt);
    var seen := polls[..j + 1];
    assert !Up(seen[i]) && Up(seen[j]);
    assert Stops(polls, deadlineAt, j + 1);
    forall m | 0 <= m <= j ensures !Stops(polls, deadlineAt, m) {
      assert m > 0 && Up(polls[m - 1]) ==> AllUp(polls[..m]);
    }
  }

  /** Clock readings that never go back make every reported downtime non-negative. */
  lemma DowntimeIsNotNegative(polls: seq<Poll>, deadlineAt: int, signalSentAt: int, result: ProbeResult)
    requires Reports(polls[..Attempts(polls, deadlineAt)], signalSentAt, result)
    requires forall a, b :: 0 <= a <= b < |polls| ==> polls[a].now <= polls[b].now
    ensures result.downtimeMs.Some? ==> result.downtimeMs.value >= 0
  {
    DowntimeIsTheOutage(polls, deadlineAt, signalSentAt, result);
  }

  /** The change points are exactly the attempts whose state differs from the one before, in order. */
  lemma {:induction false} ChangePointsAreTheChanges(seen: seq<Poll>)
    ensures forall a, b :: 0 <= a < b < |ChangePoints(seen)| ==> ChangePoints(seen)[a] < ChangePoints(seen)[b]
    ensures forall i: nat :: i in ChangePoints(seen) <==> i < |seen| && Changes(seen, i)
  {
    hide StateKey;
    if seen != [] {
      var before := seen[..|seen| - 1];
      ChangePointsAreTheChanges(before);
      forall i: nat | i < |before| ensures Changes(before, i) == Changes(seen, i) {
      }
    }
  }

  /** The reported transitions tell the state of every attempt: it is the state of the latest transition up to it. The
      state key spells a missing error kind `ok`, so the two can differ exactly in having no kind or a kind so named. */
  lemma {:induction false} TransitionsTellEveryState(seen: seq<Poll>, base: int, j: nat) returns (k: nat)
    requires j < |seen|
    ensures k < |Transitions(seen, base)| && ChangePoints(seen)[k] <= j
    ensures k + 1 < |Transitions(seen, base)| ==> j < ChangePoints(seen)[k + 1]
    ensures Transitions(seen, base)[k].ms == seen[ChangePoints(seen)[k]].now - base
    ensures Transitions(seen, base)[k].status == seen[j].status
    ensures KindLabel(seen[ChangePoints(seen)[k]].errorKind) == KindLabel(seen[j].errorKind)
    ensures Transitions(seen, base)[k].errorKind == Truthy(seen[j].errorKind) <==>
            (seen[ChangePoints(seen)[k]].errorKind == Some("ok") <==> seen[j].errorKind == Some("ok"))
  {
    k := LatestChange(seen, j);
    SameKeySameState(seen[ChangePoints(seen)[k]], seen[j]);
  }

  lemma {:induction false} LatestChange(seen: seq<Poll>, j: nat) returns (k: nat)
    requires j < |seen|
    ensures k < |ChangePoints(seen)| && ChangePoints(seen)[k] <= j
    ensures k + 1 < |ChangePoints(seen)| ==> j < ChangePoints(seen)[k + 1]
    ensures StateKey(seen[ChangePoints(seen)[k]]) == StateKey(seen[j])
  {
    hide StateKey;
    var last := |seen| - 1;
    var before := seen[..last];
    if j < last {
      k := LatestChange(before, j);
    } else if Changes(seen, last) {
      k := |ChangePoints(seen)| - 1;
    } else {
      k := LatestChange(before, last - 1);
    }
  }

  /** Two attempts share a state key exactly when they share the status and the error kind, a missing kind reading
      `ok`. */
  lemma SameKeySameState(a: Poll, b: Poll)
    ensures StateKey(a) == StateKey(b) <==> a.status == b.status && KindLabel(a.errorKind) == KindLabel(b.errorKind)
  {
    if StateKey(a) == StateKey(b) {
      StatusLabelShape(a.status);
      StatusLabelShape(b.status);
      FirstColon(StatusLabel(a.status), KindLabel(a.errorKind), StatusLabel(b.status), KindLabel(b.errorKind));
      if a.status.Some? && b.status.Some? {
        DecimalInjective(a.status.value, b.status.value);
      }
    }
  }

  lemma StatusLabelShape(status: Option<nat>)
    ensures ':' !in StatusLabel(status)
    ensures StatusLabel(status) != "" && (StatusLabel(status)[0] == 'n' <==> status.None?)
  {
    if status.Some? {
      assert StatusLabel(status)[0] in Decimal(status.value);
    } else {
      assert "none"[0] == 'n';
    }
  }

  lemma FirstColon(x: string, u: string, y: string, v: string)
    requires ':' !in x && ':' !in y && x + ":" + u == y + ":" + v
    ensures x == y && u == v
  {
    hide Split;
    SplitConcat(x, u, ':');
    SplitConcat(y, v, ':');
    SplitNoSeparator(x, ':');
    SplitNoSeparator(y, ':');
    assert x == Split(x + ":" + u, ':')[0] == y;
    assert u == (x + ":" + u)[|x| + 1..] && v == (y + ":" + v)[|y| + 1..];
  }
}
