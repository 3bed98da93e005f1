/**
 Waiting until all pods have been ready for a minimum time: the state carried from poll to
 poll, and what success means over a whole run. Models the polling closure of CheckPodsReady
 in common.go. `require.Eventually` is the loop that polls until the first success.
 */
module PodsReady {

  datatype Condition = Condition(kind: string, status: string)
  datatype Pod = Pod(phase: string, conditions: seq<Condition>)

  /**
   One poll: the pods listed, and the two clock readings it may make, when a window opens and
   when its length is measured.
   */
  datatype Poll = Poll(pods: seq<Pod>, openedAt: int, measuredAt: int)

  const READY := Condition("Ready", "True")
  const RUNNING := "Running"

  predicate PodReady(pod: Pod) {
    pod.phase == RUNNING && READY in pod.conditions
  }

  /** Some pods, all of them ready. */
  predicate Good(poll: Poll) {
    poll.pods != [] && forall i :: 0 <= i < |poll.pods| ==> PodReady(poll.pods[i])
  }

  /** No reading is the zero time, and the clock does not go back, within and between polls. */
  predicate Clocked(polls: seq<Poll>) {
    && (forall i :: 0 <= i < |polls| ==> polls[i].openedAt != 0 && polls[i].openedAt <= polls[i].measuredAt)
    && (forall i, j :: 0 <= i < j < |polls| ==> polls[i].measuredAt <= polls[j].openedAt)
  }

  /** Where the run of good polls at the end begins; the length when the last poll is bad. */
  function RunStart(polls: seq<Poll>): (s: nat)
    ensures s <= |polls|
    ensures forall i :: s <= i < |polls| ==> Good(polls[i])
    ensures s > 0 ==> !Good(polls[s - 1])
  {
    if polls == [] || !Good(polls[|polls| - 1]) then |polls| else RunStart(polls[..|polls| - 1])
  }

  /** The maximal run of good polls ending with the last one is there and spans the minimum. */
  predicate Succeeds(polls: seq<Poll>, minReadyTime: int) {
    var s := RunStart(polls);
    s < |polls| && polls[|polls| - 1].measuredAt - polls[s].openedAt >= minReadyTime
  }

  class ReadyWatch {
    var readySince: int  // 0 is the zero time
    ghost var history: seq<Poll>

    ghost predicate Valid()
      reads this
    {
      && (forall i :: 0 <= i < |history| ==> history[i].openedAt != 0)
      && readySince == if RunStart(history) < |history| then history[RunStart(history)].openedAt else 0
    }

    constructor ()
      ensures Valid() && history == []
    {
      readySince, history := 0, [];
    }

    /** The closure: one poll. */
    method Check(poll: Poll, minReadyTime: int) returns (done: bool)
      requires Valid() && poll.openedAt != 0
      modifies this
      ensures Valid() && history == old(history) + [poll]
      ensures done <==> Succeeds(history, minReadyTime)
    {
      ghost var before := history;
      history := history + [poll];
      assert history[..|history| - 1] == before;
      if |poll.pods| == 0 {
        readySince := 0;
        return false;
      }
      var allPodsReady := true;
      for i := 0 to |poll.pods|
        invariant allPodsReady <==> forall x :: 0 <= x < i ==> PodReady(poll.pods[x])
        invariant history == before + [poll] && readySince == old(readySince)
      {
        var pod, ready, c := poll.pods[i], false, 0;
        while c < |pod.conditions|
          invariant 0 <= c <= |pod.conditions|
          invariant !ready && READY !in pod.conditions[..c]
        {
          if pod.conditions[c].kind == READY.kind && pod.conditions[c].status == READY.status {
            ready := true;
            break;
          }
          c := c + 1;
        }
        assert pod.conditions[..|pod.conditions|] == pod.conditions;
        if pod.phase != RUNNING || !ready {
          allPodsReady := false;
        }
      }
      if !allPodsReady {
        readySince := 0;
        return false;
      }
      if readySince == 0 {
        readySince := poll.openedAt;
      }
      return poll.measuredAt - readySince >= minReadyTime;
    }
  }

  /** Polls until the first success; `n` is its poll, or their number when there is none. */
  method CheckPodsReady(polls: seq<Poll>, minReadyTime: int) returns (n: nat)
    requires Clocked(polls)
    ensures n <= |polls|
    ensures n < |polls| ==> Succeeds(polls[..n + 1], minReadyTime)
    ensures forall k :: 1 <= k <= n ==> !Succeeds(polls[..k], minReadyTime)
  {
    var watch := new ReadyWatch();
    n := 0;
    while n < |polls|
      invariant n <= |polls| && watch.Valid() && fresh(watch) && watch.history == polls[..n]
      invariant forall k :: 1 <= k <= n ==> !Succeeds(polls[..k], minReadyTime)
    {
      assert polls[..n + 1] == polls[..n] + [polls[n]];
      var done := watch.Check(polls[n], minReadyTime);
      if done {
        return;
      }
      n := n + 1;
    }
  }

  /**
   What success means: some stretch of good polls ending with the last one is long enough. A
   single bad poll anywhere in the stretch rules it out, however long the rest is.
   */
  lemma SucceedsExactly(polls: seq<Poll>, minReadyTime: int)
    requires Clocked(polls)
    ensures Succeeds(polls, minReadyTime)
       <==> exists s :: 0 <= s < |polls| && (forall i :: s <= i < |polls| ==> Good(polls[i]))
                        && polls[|polls| - 1].measuredAt - polls[s].openedAt >= minReadyTime
  {
    var start := RunStart(polls);
    forall s | 0 <= s < |polls| && (forall i :: s <= i < |polls| ==> Good(polls[i]))
      ensures start <= s && polls[start].openedAt <= polls[s].openedAt
    {
      if start < s {
        assert polls[start].openedAt <= polls[start].measuredAt <= polls[s].openedAt;
      }
    }
  }

  /** After a bad poll the window starts over: readiness before it no longer counts. */
  lemma BadPollRestarts(before: seq<Poll>, bad: Poll, after: seq<Poll>, minReadyTime: int)
    requires !Good(bad)
    ensures Succeeds(before + [bad] + after, minReadyTime) <==> Succeeds(after, minReadyTime)
  {
    var all, k := before + [bad] + after, |before| + 1;
    RunAfterBad(before, bad, after);
    if after != [] {
      assert all[|all| - 1] == after[|after| - 1];
      if RunStart(after) < |after| {
        assert all[RunStart(all)] == after[RunStart(after)];
      }
    }
  }

  lemma {:induction false} RunAfterBad(before: seq<Poll>, bad: Poll, after: seq<Poll>)
    requires !Good(bad)
    ensures RunStart(before + [bad] + after) == |before| + 1 + RunStart(after)
  {
    var all := before + [bad] + after;
    if after == [] {
      assert all[|all| - 1] == bad;
    } else {
      var n := |after| - 1;
      assert all[|all| - 1] == after[n];
      assert all[..|all| - 1] == before + [bad] + after[..n];
      RunAfterBad(before, bad, after[..n]);
    }
  }

  /** A running pod with a condition of kind "Ready" whose status is "True". */
  predicate RunsAndIsReady(pod: Pod) {
    pod.phase == "Running"
    && exists c :: 0 <= c < |pod.conditions| && pod.conditions[c].kind == "Ready" && pod.conditions[c].status == "True"
  }

  /** A good poll saw at least one pod and no pod that was not running and ready. */
  lemma GoodExactly(poll: Poll)
    ensures Good(poll) <==> |poll.pods| > 0 && forall i :: 0 <= i < |poll.pods| ==> RunsAndIsReady(poll.pods[i])
  {
    forall i | 0 <= i < |poll.pods| ensures PodReady(poll.pods[i]) <==> RunsAndIsReady(poll.pods[i]) {
      ReadyExactly(poll.pods[i]);
    }
  }

  lemma ReadyExactly(pod: Pod)
    ensures PodReady(pod) <==> RunsAndIsReady(pod)
  {
    if READY in pod.conditions {
      var c :| 0 <= c < |pod.conditions| && pod.conditions[c] == READY;
      assert pod.conditions[c].kind == "Ready" && pod.conditions[c].status == "True";
    }
    if c :| 0 <= c < |pod.conditions| && pod.conditions[c].kind == "Ready" && pod.conditions[c].status == "True" {
      assert pod.conditions[c] == Condition("Ready", "True");
    }
  }

  lemma OpenedInOrder(polls: seq<Poll>, i: int, j: int)
    requires Clocked(polls) && 0 <= i <= j < |polls|
    ensures polls[i].openedAt <= polls[j].openedAt
  {
    if i < j {
      assert polls[i].openedAt <= polls[i].measuredAt <= polls[j].openedAt;
    }
  }

  /** A successful poll saw every pod running and ready, and so did every poll of the minimum time before it. */
  lemma SuccessMeans(polls: seq<Poll>, minReadyTime: int, i: int)
    requires Clocked(polls) && Succeeds(polls, minReadyTime)
    requires 0 <= i < |polls| && (i == |polls| - 1 || polls[i].openedAt > polls[|polls| - 1].measuredAt - minReadyTime)
    ensures polls[i].pods != [] && forall x :: 0 <= x < |polls[i].pods| ==> RunsAndIsReady(polls[i].pods[x])
  {
    var s := RunStart(polls);
    OpenedInOrder(polls, if i < s then i else s, s);
    assert Good(polls[i]);
    GoodExactly(polls[i]);
  }
}
