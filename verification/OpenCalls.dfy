/** The calls of `acquireLock` that are inside their wait loop, followed over runs of the lock table.
    The call blocks its caller, so a transaction has at most one. Another thread may release the
    transaction meanwhile, as the deadlock detector does; the loop then goes on. */
module OpenCalls {
  import opened LockTable
  import opened WaitGraph

  datatype Want = Want(resource: Resource, mode: Mode)

  /** A refused request opens a wait loop; a granted retry, a timeout or a deadlock report ends it. */
  function CallsAfter(s: LockState, calls: map<TxId, Want>, a: Action): map<TxId, Want> {
    match a
    case DoRequest(t, r, m) => if Request(s, t, r, m).1 == Granted then calls else calls[t := Want(r, m)]
    case DoRetry(t, r, m) => if Retry(s, t, r, m).1 == Granted then calls - {t} else calls
    case DoGiveUp(t, _) => calls - {t}
    case _ => calls
  }

  /** Only a transaction outside a wait loop makes a request; only one inside turns it or leaves it. */
  predicate Possible(calls: map<TxId, Want>, a: Action) {
    match a
    case DoRequest(t, _, _) => t !in calls
    case DoRetry(t, r, m) => t in calls && calls[t] == Want(r, m)
    case DoGiveUp(t, r) => t in calls && calls[t].resource == r
    case _ => true
  }

  function CallsAt(run: seq<Action>, k: nat): map<TxId, Want>
    requires k <= |run|
  {
    if k == 0 then map[] else CallsAfter(StateAt(run, k - 1), CallsAt(run, k - 1), run[k - 1])
  }

  ghost predicate Real(run: seq<Action>) {
    forall i :: 0 <= i < |run| ==> Possible(CallsAt(run, i), run[i])
  }

  lemma Unfold(run: seq<Action>, k: nat)
    requires k < |run|
    ensures StateAt(run, k + 1) == Step(StateAt(run, k), run[k])
    ensures CallsAt(run, k + 1) == CallsAfter(StateAt(run, k), CallsAt(run, k), run[k])
    ensures Real(run) ==> Possible(CallsAt(run, k), run[k])
  {}

  lemma Start(run: seq<Action>)
    ensures StateAt(run, 0) == Empty && CallsAt(run, 0) == map[]
  {}

  // ---------- What the waiting lists show of the open calls ----------

  ghost predicate Idle(s: LockState, t: TxId) {
    forall r :: !Holds(s, t, r)
  }

  /** A waiting list names the resource of the open call. An open call missing from the waiting
      lists belongs to a transaction that was released meanwhile and holds nothing. */
  ghost predicate Tidy(s: LockState, calls: map<TxId, Want>) {
    && (forall w :: w in s.waiting ==> w in calls && s.waiting[w] == [calls[w].resource])
    && (forall w :: w in calls && w !in s.waiting ==> Idle(s, w))
  }

  /** What a step leaves of the holdings of `w`: nobody but the acting transaction gains a resource. */
  lemma StepHolds(s: LockState, a: Action, w: TxId, r: Resource)
    requires Holds(Step(s, a), w, r)
    ensures Holds(s, w, r) || (a.DoRequest? && a.tx == w) || (a.DoRetry? && a.tx == w)
  {
    hide CanGrant, FirstHeld, DropResource;
    var before, after := Entries(s, r), Entries(Step(s, a), r);
    match a
    case DoRelease(t, q) => ReleaseHolds(s, t, q, w, r);
    case DoReleaseAll(t) => ReleaseAllHolds(s, t, w, r);
    case DoUpgrade(t, q, m) => UpgradeHolds(s, t, q, m, w, r);
    case _ =>
      var i :| 0 <= i < |after| && after[i].holder == w;
      assert i < |before| ==> before[i] == after[i];
  }

  /** An upgrade changes modes, never who holds what. */
  lemma UpgradeHolds(s: LockState, t: TxId, q: Resource, m: Mode, w: TxId, r: Resource)
    ensures Holds(Upgrade(s, t, q, m).0, w, r) <==> Holds(s, w, r)
  {
    hide CanGrant, FirstHeld;
    var before, after := Entries(s, r), Entries(Upgrade(s, t, q, m).0, r);
    var i := FirstHeld(before, t);
    if r == q && i < |before| {
      var last := |before| - 1;
      assert |after| == |before|;
      assert forall k :: 0 <= k < last ==> after[k] == before[if k < i then k else k + 1];
      assert after[last].holder == before[i].holder;
      if k :| 0 <= k < |before| && before[k].holder == w {
        assert after[if k < i then k else if k == i then last else k - 1].holder == w;
      }
    }
  }

  lemma StopWaitingAlone(s: LockState, t: TxId, r: Resource)
    requires t in s.waiting ==> s.waiting[t] == [r]
    ensures StopWaiting(s, t, r).waiting == s.waiting - {t}
  {
    assert DropResource([r], r) == [];
  }

  /** What a step does to the waiting lists of a tidy table. */
  lemma StepWaiting(s: LockState, calls: map<TxId, Want>, a: Action)
    requires Tidy(s, calls) && Possible(calls, a)
    ensures Step(s, a).waiting ==
      if a.DoReleaseAll? || a.DoGiveUp? || (a.DoRetry? && Retry(s, a.tx, a.resource, a.mode).1 == Granted)
        then s.waiting - {a.tx}
      else if a.DoRequest? && Request(s, a.tx, a.resource, a.mode).1 != Granted
        then s.waiting[a.tx := [a.resource]]
      else s.waiting
  {
    hide CanGrant, FirstHeld, DropResource, Idle, DropHolder;
    if a.DoGiveUp? || a.DoRetry? {
      StopWaitingAlone(s, a.tx, a.resource);
    } else if a.DoRequest? {
      assert [] + [a.resource] == [a.resource];
    }
  }

  lemma StepKeepsTidy(s: LockState, calls: map<TxId, Want>, a: Action)
    requires Tidy(s, calls) && Possible(calls, a)
    ensures Tidy(Step(s, a), CallsAfter(s, calls, a))
  {
    hide Step, Holds, Request, Retry;
    StepWaiting(s, calls, a);
    var after, open := Step(s, a), CallsAfter(s, calls, a);
    forall w | w in open && w !in after.waiting
      ensures Idle(after, w)
    {
      if a == DoReleaseAll(w) {
        ReleasedIsIdle(s, w);
      } else {
        assert w in calls && w !in s.waiting;
        assert !(a.DoRequest? && a.tx == w) && !(a.DoRetry? && a.tx == w && open != calls);
        StaysIdle(s, a, w);
      }
    }
  }

  lemma ReleasedIsIdle(s: LockState, t: TxId)
    ensures Idle(Step(s, DoReleaseAll(t)), t)
  {
    hide Holds;
    forall r
      ensures !Holds(ReleaseAll(s, t), t, r)
    {
      ReleaseAllHolds(s, t, t, r);
    }
  }

  /** A transaction that holds nothing gains a lock only by a request or at the end of its wait loop. */
  lemma StaysIdle(s: LockState, a: Action, t: TxId)
    requires Idle(s, t)
    requires !(a.DoRequest? && a.tx == t)
    requires a.DoRetry? && a.tx == t ==> Retry(s, t, a.resource, a.mode).1 != Granted
    ensures Idle(Step(s, a), t)
  {
    hide Holds, Request, Release, ReleaseAll, Upgrade, StopWaiting, CanGrant;
    if !(a.DoRetry? && a.tx == t) {
      forall r
        ensures !Holds(Step(s, a), t, r)
      {
        if Holds(Step(s, a), t, r) {
          StepHolds(s, a, t, r);
        }
      }
    }
  }

  lemma {:induction false} RunsAreTidy(run: seq<Action>, k: nat)
    requires Real(run) && k <= |run|
    ensures Tidy(StateAt(run, k), CallsAt(run, k))
  {
    hide Step, CallsAfter, Idle, Possible;
    if k > 0 {
      RunsAreTidy(run, k - 1);
      assert Possible(CallsAt(run, k - 1), run[k - 1]);
      StepKeepsTidy(StateAt(run, k - 1), CallsAt(run, k - 1), run[k - 1]);
    }
  }

  // ---------- Releasing several transactions ----------

  function ReleaseEach(s: LockState, us: seq<TxId>): LockState
    decreases us
  {
    if us == [] then s else ReleaseEach(ReleaseAll(s, us[0]), us[1..])
  }

  lemma ReleaseAllEntries(s: LockState, u: TxId, r: Resource)
    ensures forall e :: e in Entries(ReleaseAll(s, u), r) <==> e in Entries(s, r) && e.holder != u
  {
    DropHolderMembers(Entries(s, r), u);
  }

  lemma {:induction false} ReleaseEachEntries(s: LockState, us: seq<TxId>, r: Resource)
    ensures forall e :: e in Entries(ReleaseEach(s, us), r) <==> e in Entries(s, r) && e.holder !in us
    decreases us
  {
    hide Entries, ReleaseAll;
    if us != [] {
      ReleaseAllEntries(s, us[0], r);
      ReleaseEachEntries(ReleaseAll(s, us[0]), us[1..], r);
      assert us == [us[0]] + us[1..];
    }
  }

  /** The holders of the entries that are not in `keep`. */
  function Outsiders(entries: seq<Entry>, keep: set<TxId>): seq<TxId> {
    if entries == [] then []
    else (if entries[0].holder in keep then [] else [entries[0].holder]) + Outsiders(entries[1..], keep)
  }

  lemma {:induction false} OutsidersMembers(entries: seq<Entry>, keep: set<TxId>)
    ensures forall e :: e in entries && e.holder !in keep ==> e.holder in Outsiders(entries, keep)
    ensures forall u :: u in Outsiders(entries, keep) ==> u !in keep
  {
    if entries != [] {
      OutsidersMembers(entries[1..], keep);
      assert entries == [entries[0]] + entries[1..];
    }
  }

  // ---------- Requests on simple tables ----------

  lemma RequestFree(s: LockState, t: TxId, r: Resource, m: Mode)
    requires r !in s.granted
    ensures Request(s, t, r, m) == (s.(granted := s.granted[r := [Entry(m, t)]]), Granted)
  {
    assert [] + [Entry(m, t)] == [Entry(m, t)];
  }

  lemma RequestJoins(s: LockState, t: TxId, r: Resource, m: Mode)
    requires r in s.granted && CanGrant(s.granted[r], m)
    ensures Request(s, t, r, m) == (s.(granted := s.granted[r := s.granted[r] + [Entry(m, t)]]), Granted)
  {}

  lemma RequestRefused(s: LockState, t: TxId, r: Resource, m: Mode, i: nat)
    requires r in s.granted && i < |s.granted[r]| && !Compatible(s.granted[r][i].mode, m) && t !in s.waiting
    ensures Request(s, t, r, m) == (s.(waiting := s.waiting[t := [r]]), Waiting)
  {
    hide Compatible;
    assert [] + [r] == [r];
  }
}
