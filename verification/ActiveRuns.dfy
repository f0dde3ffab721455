/** Which runs keep every waiting transaction known to the transaction manager, as its detector
    presumes when it looks the transactions of a path up. */
module ActiveRuns {
  import opened LockTable
  import opened WaitGraph
  import opened OpenCalls
  import opened LateGrants

  /** `t` began and has not been committed or aborted by the first `k` actions; both release it. */
  ghost predicate Active(run: seq<Action>, begun: set<TxId>, k: nat, t: TxId)
    requires k <= |run|
  {
    t in begun && forall i :: 0 <= i < k ==> run[i] != DoReleaseAll(t)
  }

  ghost predicate AllWaitersActive(run: seq<Action>, begun: set<TxId>, k: nat)
    requires k <= |run|
  {
    forall w :: w in StateAt(run, k).waiting ==> Active(run, begun, k, w)
  }

  ghost predicate Refused(run: seq<Action>, i: nat)
    requires i < |run|
  {
    run[i].DoRequest? && Request(StateAt(run, i), run[i].tx, run[i].resource, run[i].mode).1 != Granted
  }

  /** Only a refused request makes a transaction wait, and a release ends its waiting. */
  lemma StepWaiters(s: LockState, a: Action, w: TxId)
    ensures a.DoRequest? && a.tx == w && Request(s, w, a.resource, a.mode).1 != Granted ==> w in Step(s, a).waiting
    ensures w in Step(s, a).waiting ==>
      || w in s.waiting
      || (a.DoRequest? && a.tx == w && Request(s, w, a.resource, a.mode).1 != Granted)
    ensures a == DoReleaseAll(w) ==> w !in Step(s, a).waiting
  {
    hide CanGrant, FirstHeld, DropHolder;
    assert forall r :: DropResource([], r) == [];
  }

  lemma {:induction false} WaitersStayActive(run: seq<Action>, begun: set<TxId>, k: nat)
    requires k <= |run|
    requires forall i :: 0 <= i < k && Refused(run, i) ==> Active(run, begun, i, run[i].tx)
    ensures AllWaitersActive(run, begun, k)
  {
    hide StateAt, Refused, AllWaitersActive;
    if k == 0 {
      NobodyWaits(run, begun);
    } else {
      WaitersStayActive(run, begun, k - 1);
      WaitersStepActive(run, begun, k - 1);
    }
  }

  lemma NobodyWaits(run: seq<Action>, begun: set<TxId>)
    ensures AllWaitersActive(run, begun, 0)
  {}

  lemma WaitersStepActive(run: seq<Action>, begun: set<TxId>, k: nat)
    requires k < |run| && AllWaitersActive(run, begun, k)
    requires Refused(run, k) ==> Active(run, begun, k, run[k].tx)
    ensures AllWaitersActive(run, begun, k + 1)
  {
    hide StateAt, Step, Request;
    Unfold(run, k);
    var next := k + 1;
    var after := StateAt(run, next);
    forall w | w in after.waiting
      ensures Active(run, begun, next, w)
    {
      StepWaiters(StateAt(run, k), run[k], w);
      assert Active(run, begun, k, w);
    }
  }

  /** All waiting transactions are active throughout a run exactly when every request that had to
      wait was made by an active transaction. */
  lemma WaitersActiveIff(run: seq<Action>, begun: set<TxId>)
    ensures (forall k :: 0 <= k <= |run| ==> AllWaitersActive(run, begun, k)) <==>
      (forall i :: 0 <= i < |run| && Refused(run, i) ==> Active(run, begun, i, run[i].tx))
  {
    hide Step, Request, StateAt;
    if forall k :: 0 <= k <= |run| ==> AllWaitersActive(run, begun, k) {
      forall i | 0 <= i < |run| && Refused(run, i)
        ensures Active(run, begun, i, run[i].tx)
      {
        Unfold(run, i);
        StepWaiters(StateAt(run, i), run[i], run[i].tx);
        assert AllWaitersActive(run, begun, i + 1);
        assert Active(run, begun, i + 1, run[i].tx);
      }
    }
    if forall i :: 0 <= i < |run| && Refused(run, i) ==> Active(run, begun, i, run[i].tx) {
      forall k | 0 <= k <= |run|
        ensures AllWaitersActive(run, begun, k)
      {
        WaitersStayActive(run, begun, k);
      }
    }
  }

  // ---------- A run that breaks it ----------

  /** The victim 2 of VictimRun, granted "r" after its abort, goes on to wait for 3, which waits for it. */
  const GhostRun := VictimRun + [DoRequest(3, "q", X), DoRequest(2, "q", X), DoRequest(3, "r", X)]

  lemma GhostRunStart()
    ensures StateAt(GhostRun, 8) == LockState(map["r" := [Entry(X, 2)]], map[]) && CallsAt(GhostRun, 8) == map[]
  {
    hide StateAt, CallsAt, Retry;
    VictimRunAtTheEnd();
    Unfold(VictimRun, 7);
    RetryFree(StateAt(VictimRun, 7), 2, "r", X);
    PrefixAgrees(VictimRun, [DoRequest(3, "q", X), DoRequest(2, "q", X), DoRequest(3, "r", X)], 8);
  }

  lemma GhostRunEnd()
    ensures StateAt(GhostRun, 11) ==
      LockState(map["r" := [Entry(X, 2)], "q" := [Entry(X, 3)]], map[2 := ["q"], 3 := ["r"]])
    ensures CallsAt(GhostRun, 9) == map[] && CallsAt(GhostRun, 10) == map[2 := Want("q", X)]
  {
    hide StateAt, CallsAt, Request;
    var run := GhostRun;
    GhostRunStart();
    Unfold(run, 8);
    Unfold(run, 9);
    Unfold(run, 10);
    RequestFree(StateAt(run, 8), 3, "q", X);
    RequestRefused(StateAt(run, 9), 2, "q", X, 0);
    RequestRefused(StateAt(run, 10), 3, "r", X, 0);
  }

  lemma GhostRunIsReal()
    ensures Real(GhostRun)
  {
    hide StateAt, Possible, CallsAt;
    VictimRunIsReal();
    GhostRunStart();
    GhostRunEnd();
    var run := GhostRun;
    forall i | 0 <= i < |run|
      ensures Possible(CallsAt(run, i), run[i])
    {
      if i < 8 {
        PrefixAgrees(VictimRun, run[8..], i);
        assert VictimRun + run[8..] == run;
      } else {
        AskedOutsideLoop(CallsAt(run, i), run[i]);
      }
    }
  }

  lemma AskedOutsideLoop(calls: map<TxId, Want>, a: Action)
    requires a.DoRequest? && a.tx !in calls
    ensures Possible(calls, a)
  {}

  /** A transaction aborted in its wait loop is granted, asks again and waits on a cycle: the detector
      finds it on the path of an active transaction, and it is not active. */
  lemma AbortedWaiterIsOnPath()
    ensures Real(GhostRun) && |GhostRun| == 11
    ensures CycleReachable(StateAt(GhostRun, 11), 3) && Edge(StateAt(GhostRun, 11), 3, 2)
    ensures Active(GhostRun, {1, 2, 3}, 11, 3) && !Active(GhostRun, {1, 2, 3}, 11, 2)
    ensures !AllWaitersActive(GhostRun, {1, 2, 3}, 11)
  {
    hide StateAt, CallsAt, Real, CycleReachable, Trapped, Edge;
    GhostRunIsReal();
    GhostRunEnd();
    var s := StateAt(GhostRun, 11);
    WaiterEdge(s, 2, 3, "r", 0);
    WaiterEdge(s, 3, 2, "q", 0);
    RepeatIsTrap(s, [3, 2, 3], 0, 2);
    TrappedIffCycleReachable(s, 3);
    assert GhostRun[4] == DoReleaseAll(2);
    assert 2 in s.waiting;
  }
}
