/** Grants to a transaction after its own release: when they can happen, what they break, and the
    discipline of callers that rules them out. */
module LateGrants {
  import opened LockTable
  import opened WaitGraph
  import opened OpenCalls
  import opened TwoPhase

  // ---------- When a late grant can happen ----------

  lemma {:induction false} PrefixAgrees(run: seq<Action>, more: seq<Action>, k: nat)
    requires k <= |run|
    ensures StateAt(run + more, k) == StateAt(run, k) && CallsAt(run + more, k) == CallsAt(run, k)
  {
    hide Step, CallsAfter;
    if k > 0 {
      PrefixAgrees(run, more, k - 1);
      assert (run + more)[k - 1] == run[k - 1];
    }
  }

  lemma RealExtends(run: seq<Action>, a: Action)
    requires Real(run) && Possible(CallsAt(run, |run|), a)
    ensures Real(run + [a])
    ensures StateAt(run + [a], |run| + 1) == Step(StateAt(run, |run|), a)
    ensures CallsAt(run + [a], |run| + 1) == CallsAfter(StateAt(run, |run|), CallsAt(run, |run|), a)
  {
    hide CallsAfter, Step, Possible;
    PrefixAgrees(run, [a], |run|);
    forall i | 0 <= i < |run + [a]|
      ensures Possible(CallsAt(run + [a], i), (run + [a])[i])
    {
      PrefixAgrees(run, [a], i);
    }
  }

  /** No request by `t`. */
  predicate AsksNothing(actions: seq<Action>, t: TxId) {
    forall i :: 0 <= i < |actions| ==> !(actions[i].DoRequest? && actions[i].tx == t)
  }

  /** The run can go on, without a new request by `t`, to a grant for `t`. */
  ghost predicate LateGrant(run: seq<Action>, more: seq<Action>, t: TxId) {
    && Real(run + more) && AsksNothing(more, t)
    && exists i, r, m :: |run| <= i && Grants(run + more, i, t, r, m)
  }

  /** With nothing held and no call open, a transaction that asks for nothing stays so and is granted nothing. */
  lemma OutStaysOut(s: LockState, calls: map<TxId, Want>, a: Action, t: TxId)
    requires Possible(calls, a) && !(a.DoRequest? && a.tx == t)
    requires Idle(s, t) && t !in calls
    ensures Idle(Step(s, a), t) && t !in CallsAfter(s, calls, a)
    ensures a.DoUpgrade? && a.tx == t ==> Upgrade(s, t, a.resource, a.mode).1 != Granted
  {
    hide Step, Request, Retry, CanGrant;
    StaysIdle(s, a, t);
    if a.DoUpgrade? {
      assert !Holds(s, t, a.resource);
    }
  }

  lemma {:induction false} StaysOut(run: seq<Action>, t: TxId, k: nat, i: nat)
    requires Real(run) && k <= i <= |run| && AsksNothing(run[k..], t)
    requires Idle(StateAt(run, k), t) && t !in CallsAt(run, k)
    ensures Idle(StateAt(run, i), t) && t !in CallsAt(run, i)
  {
    hide Real, Step, StateAt, CallsAt, CallsAfter, Idle, Possible;
    if k < i {
      StaysOut(run, t, k, i - 1);
      assert run[i - 1] == run[k..][i - 1 - k];
      Unfold(run, i - 1);
      OutStaysOut(StateAt(run, i - 1), CallsAt(run, i - 1), run[i - 1], t);
    }
  }

  lemma OutIsNotGranted(run: seq<Action>, t: TxId, i: nat, r: Resource, m: Mode)
    requires Real(run) && i < |run| && !(run[i].DoRequest? && run[i].tx == t)
    requires Idle(StateAt(run, i), t) && t !in CallsAt(run, i)
    ensures !Grants(run, i, t, r, m)
  {
    hide Real, StateAt, CallsAt, Request, Retry, Upgrade, Idle;
    Unfold(run, i);
    OutStaysOut(StateAt(run, i), CallsAt(run, i), run[i], t);
  }

  /** A release outside the wait loop is final until the transaction asks again. */
  lemma SettledReleaseIsFinal(run: seq<Action>, t: TxId, k: nat, i: nat, r: Resource, m: Mode)
    requires Real(run) && ReleasesAll(run, k, t) && t !in CallsAt(run, k)
    requires AsksNothing(run[k + 1..], t)
    ensures Grants(run, i, t, r, m) ==> i < k
  {
    hide Real, StateAt, CallsAt, Idle, Step, Grants;
    if k < i < |run| {
      Unfold(run, k);
      ReleasedIsIdle(StateAt(run, k), t);
      StaysOut(run, t, k + 1, i);
      assert run[i] == run[k + 1..][i - k - 1];
      OutIsNotGranted(run, t, i, r, m);
    } else {
      GrantAsksForLock(run, t, i, r, m);
    }
  }

  lemma GrantAsksForLock(run: seq<Action>, t: TxId, i: nat, r: Resource, m: Mode)
    ensures Grants(run, i, t, r, m) ==> i < |run| && !run[i].DoReleaseAll?
  {}

  /** Aborting the holders one after the other. */
  lemma {:induction false} ReleaseRun(run: seq<Action>, us: seq<TxId>, t: TxId) returns (more: seq<Action>)
    requires Real(run)
    ensures Real(run + more) && AsksNothing(more, t)
    ensures StateAt(run + more, |run + more|) == ReleaseEach(StateAt(run, |run|), us)
    ensures CallsAt(run + more, |run + more|) == CallsAt(run, |run|)
    decreases us
  {
    hide Real, Step, StateAt;
    if us == [] {
      more := [];
      assert run + more == run;
    } else {
      RealExtends(run, DoReleaseAll(us[0]));
      var rest := ReleaseRun(run + [DoReleaseAll(us[0])], us[1..], t);
      more := [DoReleaseAll(us[0])] + rest;
      assert run + more == run + [DoReleaseAll(us[0])] + rest;
      assert Step(StateAt(run, |run|), DoReleaseAll(us[0])) == ReleaseAll(StateAt(run, |run|), us[0]) by {
        ReleaseStep(StateAt(run, |run|), us[0]);
      }
    }
  }

  lemma ReleaseStep(s: LockState, u: TxId)
    ensures Step(s, DoReleaseAll(u)) == ReleaseAll(s, u)
  {}

  /** A call left open can always be granted: the holders go, then the loop takes its turn. */
  lemma OpenCallCanBeGranted(run: seq<Action>, t: TxId) returns (more: seq<Action>)
    requires Real(run) && t in CallsAt(run, |run|)
    ensures LateGrant(run, more, t)
  {
    hide Real, StateAt, CallsAt, ReleaseEach;
    var want := CallsAt(run, |run|)[t];
    var s := StateAt(run, |run|);
    var us := Outsiders(Entries(s, want.resource), {});
    var releases := ReleaseRun(run, us, t);
    var mid := run + releases;
    OutsidersMembers(Entries(s, want.resource), {});
    ReleaseEachEntries(s, us, want.resource);
    var entries := Entries(StateAt(mid, |mid|), want.resource);
    assert CanGrant(entries, want.mode) by {
      assert forall i :: 0 <= i < |entries| ==> entries[i] in entries;
    }
    var a := DoRetry(t, want.resource, want.mode);
    RealExtends(mid, a);
    more := releases + [a];
    assert run + more == mid + [a];
    PrefixAgrees(mid, [a], |mid|);
    assert Grants(run + more, |mid|, t, want.resource, want.mode);
  }

  /** After `releaseAllLocks` on `t`, the run can go on to a grant for `t` that it did not ask for
      again exactly when `t` was inside a wait loop at the release. On its first release that is
      exactly when its waiting list was not empty. */
  lemma LateGrantIffInWaitLoop(run: seq<Action>, t: TxId)
    requires Real(run) && run != [] && run[|run| - 1] == DoReleaseAll(t)
    ensures (exists more :: LateGrant(run, more, t)) <==> t in CallsAt(run, |run| - 1)
    ensures (forall k :: 0 <= k < |run| - 1 ==> run[k] != DoReleaseAll(t)) ==>
      ((exists more :: LateGrant(run, more, t)) <==> WaitList(StateAt(run, |run| - 1), t) != [])
  {
    hide Real, StateAt, LateGrant, WaitList;
    var last := |run| - 1;
    assert CallsAt(run, |run|) == CallsAt(run, last);
    if t in CallsAt(run, last) {
      var more := OpenCallCanBeGranted(run, t);
    }
    if more :| LateGrant(run, more, t) {
      if t !in CallsAt(run, last) {
        LateGrantNeedsCall(run, more, t);
        assert false;
      }
    }
    if forall k :: 0 <= k < last ==> run[k] != DoReleaseAll(t) {
      WaitListShowsCall(run, last, t);
    }
  }

  lemma LateGrantNeedsCall(run: seq<Action>, more: seq<Action>, t: TxId)
    requires Real(run) && run != [] && run[|run| - 1] == DoReleaseAll(t)
    requires LateGrant(run, more, t)
    ensures t in CallsAt(run, |run| - 1)
  {
    hide Real, StateAt, Grants, CallsAt;
    var i, r, m :| |run| <= i && Grants(run + more, i, t, r, m);
    if t !in CallsAt(run, |run| - 1) {
      PrefixAgrees(run, more, |run| - 1);
      assert (run + more)[|run|..] == more;
      SettledReleaseIsFinal(run + more, t, |run| - 1, i, r, m);
    }
  }

  lemma StepShowsCall(s: LockState, calls: map<TxId, Want>, a: Action, t: TxId)
    requires Tidy(s, calls) && Possible(calls, a) && a != DoReleaseAll(t)
    requires t in calls <==> t in s.waiting
    ensures t in CallsAfter(s, calls, a) <==> t in Step(s, a).waiting
  {
    hide Step, Idle, Request, Retry;
    StepWaiting(s, calls, a);
  }

  /** Until its first release, a transaction has a waiting list exactly while its call is open. */
  lemma {:induction false} WaitListShowsCall(run: seq<Action>, k: nat, t: TxId)
    requires Real(run) && k <= |run| && forall i :: 0 <= i < k ==> run[i] != DoReleaseAll(t)
    ensures t in CallsAt(run, k) <==> t in StateAt(run, k).waiting
    ensures t in CallsAt(run, k) <==> WaitList(StateAt(run, k), t) != []
  {
    hide Real, Step, Idle, CallsAfter, Possible;
    RunsAreTidy(run, k);
    if k > 0 {
      WaitListShowsCall(run, k - 1, t);
      RunsAreTidy(run, k - 1);
      Unfold(run, k - 1);
      StepShowsCall(StateAt(run, k - 1), CallsAt(run, k - 1), run[k - 1], t);
    }
  }

  // ---------- The discipline of callers ----------

  /** Every release finds its transaction outside a wait loop, and is its last word. */
  ghost predicate SettledReleases(run: seq<Action>) {
    forall t, k :: ReleasesAll(run, k, t) ==> t !in CallsAt(run, k) && AsksNothing(run[k + 1..], t)
  }

  /** With settled releases, and locks that leave together, the conflict relation has no cycle. */
  lemma SettledRunsSerialise(run: seq<Action>, path: seq<TxId>)
    requires Real(run) && LocksLeaveTogether(run) && SettledReleases(run)
    ensures StrictTwoPhase(run)
    ensures ConflictPath(run, path) ==> path[0] != path[|path| - 1]
  {
    hide Real, StateAt, Grants, ReleasesAll, CallsAt, LocksLeaveTogether, ConflictPath;
    forall t, k, i, r, m | ReleasesAll(run, k, t) && Grants(run, i, t, r, m)
      ensures i < k
    {
      SettledReleaseIsFinal(run, t, k, i, r, m);
    }
    if ConflictPath(run, path) {
      ConflictsAreAcyclic(run, path);
    }
  }

  // ---------- Three runs ----------

  lemma RetryFree(s: LockState, t: TxId, r: Resource, m: Mode)
    requires r !in s.granted && (t in s.waiting ==> s.waiting[t] == [r])
    ensures Retry(s, t, r, m) == (LockState(s.granted[r := [Entry(m, t)]], s.waiting - {t}), Granted)
  {
    hide Compatible, DropResource;
    StopWaitingAlone(s, t, r);
    assert [] + [Entry(m, t)] == [Entry(m, t)];
  }

  lemma UpgradeAlone(s: LockState, t: TxId, r: Resource, before: Mode, m: Mode)
    requires r in s.granted && s.granted[r] == [Entry(before, t)]
    ensures Upgrade(s, t, r, m) == (s.(granted := s.granted[r := [Entry(m, t)]]), Granted)
  {
    hide Compatible;
    var entries := s.granted[r];
    assert FirstHeld(entries, t) == 0;
    assert entries[..0] + entries[0 + 1..] == [];
    assert entries[..0] + entries[0 + 1..] + [Entry(m, t)] == [Entry(m, t)];
  }

  /** A release, seen at a resource with one entry. */
  lemma ReleaseSingle(s: LockState, t: TxId, r: Resource)
    requires r in s.granted ==> |s.granted[r]| == 1
    ensures r in ReleaseAll(s, t).granted <==> r in s.granted && s.granted[r][0].holder != t
    ensures r in ReleaseAll(s, t).granted ==> ReleaseAll(s, t).granted[r] == s.granted[r]
    ensures ReleaseAll(s, t).waiting == s.waiting - {t} && ReleaseAll(s, t).granted.Keys <= s.granted.Keys
  {
    if r in s.granted {
      assert s.granted[r] == [s.granted[r][0]];
      assert DropHolder(s.granted[r][1..], t) == [];
    }
  }

  /** Two transactions wait for each other, the detector releases 2, 1 is granted and finishes, and
      the wait loop of 2 takes its turn. */
  const VictimRun := [
    DoRequest(2, "a", X), DoRequest(1, "r", X), DoRequest(2, "r", X), DoRequest(1, "a", X),
    DoReleaseAll(2), DoRetry(1, "a", X), DoReleaseAll(1), DoRetry(2, "r", X)]

  lemma VictimRunUpToDeadlock()
    ensures StateAt(VictimRun, 1) == LockState(map["a" := [Entry(X, 2)]], map[])
    ensures StateAt(VictimRun, 2) == LockState(map["a" := [Entry(X, 2)], "r" := [Entry(X, 1)]], map[])
    ensures StateAt(VictimRun, 3) == LockState(map["a" := [Entry(X, 2)], "r" := [Entry(X, 1)]], map[2 := ["r"]])
    ensures StateAt(VictimRun, 4) ==
      LockState(map["a" := [Entry(X, 2)], "r" := [Entry(X, 1)]], map[2 := ["r"], 1 := ["a"]])
    ensures CallsAt(VictimRun, 1) == map[] && CallsAt(VictimRun, 2) == map[]
    ensures CallsAt(VictimRun, 3) == map[2 := Want("r", X)]
    ensures CallsAt(VictimRun, 4) == map[2 := Want("r", X), 1 := Want("a", X)]
  {
    hide Request;
    var run := VictimRun;
    RequestFree(StateAt(run, 0), 2, "a", X);
    RequestFree(StateAt(run, 1), 1, "r", X);
    RequestRefused(StateAt(run, 2), 2, "r", X, 0);
    RequestRefused(StateAt(run, 3), 1, "a", X, 0);
  }

  lemma VictimRunAfterRelease()
    ensures StateAt(VictimRun, 5) == LockState(map["r" := [Entry(X, 1)]], map[1 := ["a"]])
    ensures StateAt(VictimRun, 6) == LockState(map["r" := [Entry(X, 1)], "a" := [Entry(X, 1)]], map[])
    ensures CallsAt(VictimRun, 5) == map[2 := Want("r", X), 1 := Want("a", X)]
    ensures CallsAt(VictimRun, 6) == map[2 := Want("r", X)]
    ensures Retry(StateAt(VictimRun, 5), 1, "a", X).1 == Granted
  {
    hide Request, Retry, ReleaseAll, StateAt, CallsAt;
    var run := VictimRun;
    VictimRunUpToDeadlock();
    Unfold(run, 4);
    Unfold(run, 5);
    ReleaseSingle(StateAt(run, 4), 2, "a");
    ReleaseSingle(StateAt(run, 4), 2, "r");
    assert StateAt(run, 5).granted == map["r" := [Entry(X, 1)]];
    RetryFree(StateAt(run, 5), 1, "a", X);
  }

  lemma VictimRunAtTheEnd()
    ensures StateAt(VictimRun, 7) == Empty && CallsAt(VictimRun, 7) == map[2 := Want("r", X)]
    ensures Retry(StateAt(VictimRun, 7), 2, "r", X).1 == Granted
  {
    hide Request, Retry, ReleaseAll, StateAt, CallsAt;
    var run := VictimRun;
    VictimRunAfterRelease();
    Unfold(run, 6);
    ReleaseSingle(StateAt(run, 6), 1, "a");
    ReleaseSingle(StateAt(run, 6), 1, "r");
    assert StateAt(run, 7).granted == map[];
    RetryFree(StateAt(run, 7), 2, "r", X);
  }

  lemma VictimRunClashes()
    ensures !NoGrantAfterRelease(VictimRun)
    ensures ConflictEdge(VictimRun, 1, 2) && ConflictEdge(VictimRun, 2, 1)
  {
    hide Retry, StateAt, CallsAt;
    var run := VictimRun;
    VictimRunUpToDeadlock();
    VictimRunAfterRelease();
    VictimRunAtTheEnd();
    assert StateAt(run, 0) == Empty by { Start(run); }
    assert Grants(run, 0, 2, "a", X) && Grants(run, 1, 1, "r", X);
    assert Grants(run, 5, 1, "a", X) && Grants(run, 7, 2, "r", X);
    assert Clash(run, 0, 5, 2, 1, "a", X, X) && Clash(run, 1, 7, 1, 2, "r", X, X);
    assert ReleasesAll(run, 4, 2);
  }

  lemma VictimRunIsReal()
    ensures Real(VictimRun) && LocksLeaveTogether(VictimRun)
  {
    hide StateAt, CallsAt;
    VictimRunUpToDeadlock();
    VictimRunAfterRelease();
    VictimRunAtTheEnd();
    Start(VictimRun);
  }

  lemma VictimRunDeadlocks()
    ensures CycleReachable(StateAt(VictimRun, 4), 2)
  {
    hide StateAt, CallsAt;
    VictimRunUpToDeadlock();
    var s := StateAt(VictimRun, 4);
    assert Edge(s, 1, 2) by {
      assert Entries(s, "r")[0].holder == 1;
      assert Holds(s, 1, s.waiting[2][0]);
    }
    assert Edge(s, 2, 1) by {
      assert Entries(s, "a")[0].holder == 2;
      assert Holds(s, 2, s.waiting[1][0]);
    }
    assert Walk(s, [2]) && Walk(s, [2, 1, 2]) && Last([2]) == 2 && Last([2, 1, 2]) == 2;
  }

  /** Deadlock resolution can break serialisability: the victim of a detected deadlock is still in
      its wait loop, is granted after its release, and each transaction then precedes the other. */
  lemma VictimBreaksSerialisability()
    ensures Real(VictimRun) && LocksLeaveTogether(VictimRun) && CycleReachable(StateAt(VictimRun, 4), 2)
    ensures !NoGrantAfterRelease(VictimRun)
    ensures ConflictEdge(VictimRun, 1, 2) && ConflictEdge(VictimRun, 2, 1)
  {
    hide *;
    VictimRunIsReal();
    VictimRunDeadlocks();
    VictimRunClashes();
  }

  /** Without the rule on upgrades: trading X for IS lets a clashing S in with nothing released. */
  lemma WeakenedLockAdmitsClash()
    ensures
      var run := [DoRequest(1, "r", X), DoUpgrade(1, "r", IS), DoRequest(2, "r", S)];
      Real(run) && Clash(run, 0, 2, 1, 2, "r", X, S) && forall k, t :: !ReleasesAll(run, k, t)
  {
    hide Upgrade, StateAt, CallsAt;
    var run := [DoRequest(1, "r", X), DoUpgrade(1, "r", IS), DoRequest(2, "r", S)];
    Start(run);
    Unfold(run, 0);
    Unfold(run, 1);
    RequestFree(Empty, 1, "r", X);
    UpgradeAlone(StateAt(run, 1), 1, "r", X, IS);
    assert Grants(run, 0, 1, "r", X) && Grants(run, 2, 2, "r", S);
  }

  /** The discipline admits clashes: two transactions take the same lock one after the other. */
  lemma StrictRunWithClash()
    ensures exists run :: Real(run) && SettledReleases(run) && StrictTwoPhase(run) && ConflictEdge(run, 1, 2)
  {
    var run := [DoRequest(1, "r", X), DoReleaseAll(1), DoRequest(2, "r", X)];
    var s1 := LockState(map["r" := [Entry(X, 1)]], map[]);
    RequestFree(Empty, 1, "r", X);
    ReleaseSingle(s1, 1, "r");
    assert ReleaseAll(s1, 1).granted == map[];
    assert StateAt(run, 1) == s1 && StateAt(run, 2) == Empty;
    assert Grants(run, 0, 1, "r", X) && Grants(run, 2, 2, "r", X);
    assert Clash(run, 0, 2, 1, 2, "r", X, X);
    assert SettledReleases(run);
    assert LocksLeaveTogether(run) by {
      assert forall i :: 0 <= i < |run| ==> run[i].DoRequest? || run[i].DoReleaseAll?;
    }
    SettledRunsSerialise(run, [1, 2]);
  }
}
