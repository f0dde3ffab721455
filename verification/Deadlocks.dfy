/** Deadlock as the lock modes define it, against what the mode-blind cycle search reports. */
module Deadlocks {
  import opened LockTable
  import opened WaitGraph
  import opened OpenCalls

  /** An entry of `u` refuses the mode `want` asks for. */
  ghost predicate Blocks(s: LockState, want: Want, u: TxId) {
    exists e :: e in Entries(s, want.resource) && e.holder == u && !Compatible(e.mode, want.mode)
  }

  /** The open call of `w` is refused because of a member, or of another member. */
  ghost predicate Hindered(s: LockState, calls: map<TxId, Want>, members: set<TxId>, w: TxId) {
    w in calls && exists u :: u in members && Blocks(s, calls[w], u)
  }

  /** Waiting transactions, each refused because of a member. */
  ghost predicate Deadlocked(s: LockState, calls: map<TxId, Want>, members: set<TxId>) {
    members != {} && forall w :: w in members ==> Hindered(s, calls, members, w)
  }

  /** Waiting transactions, each refused because of another member. */
  ghost predicate MutuallyBlocked(s: LockState, calls: map<TxId, Want>, members: set<TxId>) {
    members != {} && forall w :: w in members ==> Hindered(s, calls, members - {w}, w)
  }

  // ---------- What a deadlock is: patience does not end it ----------

  /** Waiting for others: wait loops turn, and transactions outside a wait loop finish. */
  predicate Patient(calls: map<TxId, Want>, a: Action) {
    a.DoRetry? || (a.DoReleaseAll? && a.tx !in calls)
  }

  /** The actions are patient and end with no call of `goal` open. */
  ghost predicate Finishes(s: LockState, calls: map<TxId, Want>, goal: set<TxId>, more: seq<Action>)
    decreases more
  {
    if more == [] then calls.Keys !! goal
    else
      && Possible(calls, more[0]) && Patient(calls, more[0])
      && Finishes(Step(s, more[0]), CallsAfter(s, calls, more[0]), goal, more[1..])
  }

  /** The actions that could help a deadlocked set from inside. */
  predicate Yields(a: Action, members: set<TxId>) {
    (a.DoGiveUp? || a.DoRelease? || a.DoReleaseAll? || a.DoUpgrade?) && a.tx in members
  }

  lemma StepKeepsEntry(s: LockState, a: Action, r: Resource, e: Entry)
    requires e in Entries(s, r) && !Yields(a, {e.holder})
    ensures e in Entries(Step(s, a), r)
  {
    hide CanGrant, FirstHeld, DropResource, DropHolder, Upgrade;
    match a
    case DoRelease(t, q) => DropHolderMembers(Entries(s, r), t);
    case DoReleaseAll(t) => DropHolderMembers(Entries(s, r), t);
    case DoUpgrade(t, q, m) => UpgradeKeepsOthers(s, t, q, m, r, e);
    case _ =>
  }

  lemma UpgradeKeepsOthers(s: LockState, t: TxId, q: Resource, m: Mode, r: Resource, e: Entry)
    requires e in Entries(s, r) && e.holder != t
    ensures e in Entries(Upgrade(s, t, q, m).0, r)
  {
    hide CanGrant, FirstHeld;
    var entries := Entries(s, r);
    var i := FirstHeld(entries, t);
    if q == r && i < |entries| {
      KeptBesideOne(entries, i, e);
    }
  }

  lemma KeptBesideOne(entries: seq<Entry>, i: nat, e: Entry)
    requires i < |entries| && e in entries && e != entries[i]
    ensures e in entries[..i] + entries[i + 1..]
  {
    assert entries == entries[..i] + [entries[i]] + entries[i + 1..];
  }

  lemma BlockedRetryIsRefused(s: LockState, t: TxId, want: Want, u: TxId)
    requires Blocks(s, want, u)
    ensures Retry(s, t, want.resource, want.mode) == (s, Waiting)
  {
    hide Compatible;
    var e :| e in Entries(s, want.resource) && e.holder == u && !Compatible(e.mode, want.mode);
    var i :| 0 <= i < |Entries(s, want.resource)| && Entries(s, want.resource)[i] == e;
  }

  lemma HinderedPersists(s: LockState, calls: map<TxId, Want>, members: set<TxId>, a: Action, w: TxId)
    requires Hindered(s, calls, members, w) && w in members && Possible(calls, a) && !Yields(a, members)
    ensures Hindered(Step(s, a), CallsAfter(s, calls, a), members, w)
    ensures w in calls && w in CallsAfter(s, calls, a) && CallsAfter(s, calls, a)[w] == calls[w]
  {
    hide Step, Request, Retry, Compatible, Entries;
    var u :| u in members && Blocks(s, calls[w], u);
    BlockedRetryIsRefused(s, w, calls[w], u);
    var e :| e in Entries(s, calls[w].resource) && e.holder == u && !Compatible(e.mode, calls[w].mode);
    StepKeepsEntry(s, a, calls[w].resource, e);
    assert Blocks(Step(s, a), calls[w], u);
  }

  /** A deadlocked set stays deadlocked, and none of its calls is granted, whatever the others do
      and however often its wait loops turn, until a member yields. */
  lemma DeadlockPersists(s: LockState, calls: map<TxId, Want>, members: set<TxId>, a: Action)
    requires Deadlocked(s, calls, members) && Possible(calls, a) && !Yields(a, members)
    ensures Deadlocked(Step(s, a), CallsAfter(s, calls, a), members)
    ensures forall w :: w in members ==> w in calls && w in CallsAfter(s, calls, a) && CallsAfter(s, calls, a)[w] == calls[w]
  {
    hide Step, CallsAfter, Hindered, Possible, Yields;
    forall w | w in members
      ensures Hindered(Step(s, a), CallsAfter(s, calls, a), members, w)
      ensures w in calls && w in CallsAfter(s, calls, a) && CallsAfter(s, calls, a)[w] == calls[w]
    {
      HinderedPersists(s, calls, members, a, w);
    }
  }

  lemma DeadlockedWait(s: LockState, calls: map<TxId, Want>, members: set<TxId>)
    requires Deadlocked(s, calls, members)
    ensures members != {} && members <= calls.Keys && calls != map[]
  {
    hide Blocks;
    var w :| w in members;
    assert Hindered(s, calls, members, w);
  }

  lemma {:induction false} DeadlockedNeverFinish(
    s: LockState, calls: map<TxId, Want>, members: set<TxId>, t: TxId, goal: set<TxId>, more: seq<Action>)
    requires Deadlocked(s, calls, members) && t in members && t in goal
    ensures !Finishes(s, calls, goal, more)
    decreases more
  {
    hide Step, CallsAfter, Deadlocked;
    DeadlockedWait(s, calls, members);
    assert t in calls.Keys;
    if more != [] && Possible(calls, more[0]) && Patient(calls, more[0]) {
      DeadlockPersists(s, calls, members, more[0]);
      DeadlockedNeverFinish(Step(s, more[0]), CallsAfter(s, calls, more[0]), members, t, goal, more[1..]);
    }
  }

  function Releases(us: seq<TxId>): seq<Action> {
    if us == [] then [] else [DoReleaseAll(us[0])] + Releases(us[1..])
  }

  lemma {:induction false} ReleasesFirst(
    s: LockState, calls: map<TxId, Want>, goal: set<TxId>, us: seq<TxId>, more: seq<Action>)
    requires forall u :: u in us ==> u !in calls
    requires Finishes(ReleaseEach(s, us), calls, goal, more)
    ensures Finishes(s, calls, goal, Releases(us) + more)
    decreases us
  {
    hide ReleaseAll, Finishes;
    if us == [] {
      assert Releases(us) + more == more;
    } else {
      ReleasesFirst(ReleaseAll(s, us[0]), calls, goal, us[1..], more);
      assert Releases(us) + more == [DoReleaseAll(us[0])] + (Releases(us[1..]) + more);
      FinishesAfterRelease(s, calls, goal, us[0], Releases(us[1..]) + more);
    }
  }

  lemma FinishesAfterRelease(s: LockState, calls: map<TxId, Want>, goal: set<TxId>, u: TxId, more: seq<Action>)
    requires u !in calls && Finishes(ReleaseAll(s, u), calls, goal, more)
    ensures Finishes(s, calls, goal, [DoReleaseAll(u)] + more)
  {
    assert ([DoReleaseAll(u)] + more)[1..] == more;
  }

  /** A waiting transaction refused by no waiting transaction, if not all of them are deadlocked together. */
  lemma NextToFinish(s: LockState, calls: map<TxId, Want>) returns (w: TxId)
    requires calls != map[] && !Deadlocked(s, calls, calls.Keys)
    ensures w in calls && forall u :: u in calls ==> !Blocks(s, calls[w], u)
  {
    hide Blocks;
    assert calls.Keys != {} by {
      assert calls != map[];
    }
    w :| w in calls.Keys && !Hindered(s, calls, calls.Keys, w);
  }

  /** Once the transactions outside wait loops have left the resource, the retry is granted, and
      nobody else gains an entry. */
  lemma GrantAfterReleases(s: LockState, calls: map<TxId, Want>, w: TxId, us: seq<TxId>)
    requires w in calls && forall u :: u in calls ==> !Blocks(s, calls[w], u)
    requires us == Outsiders(Entries(s, calls[w].resource), calls.Keys)
    ensures
      var room := ReleaseEach(s, us);
      var after := Retry(room, w, calls[w].resource, calls[w].mode);
      && after.1 == Granted
      && forall r, e :: e in Entries(after.0, r) && e.holder != w ==> e in Entries(s, r)
  {
    hide ReleaseEach, Compatible, StopWaiting, Outsiders;
    var want := calls[w];
    var room := ReleaseEach(s, us);
    OutsidersMembers(Entries(s, want.resource), calls.Keys);
    ReleaseEachEntries(s, us, want.resource);
    var left := Entries(room, want.resource);
    forall i | 0 <= i < |left|
      ensures Compatible(left[i].mode, want.mode)
    {
      assert left[i] in left;
      assert left[i].holder in calls;
      assert !Blocks(s, want, left[i].holder);
    }
    var after := Retry(room, w, want.resource, want.mode).0;
    forall r, e | e in Entries(after, r) && e.holder != w
      ensures e in Entries(s, r)
    {
      ReleaseEachEntries(s, us, r);
      RetryEntries(room, w, want.resource, want.mode, r, e);
    }
  }

  lemma RetryEntries(s: LockState, w: TxId, q: Resource, m: Mode, r: Resource, e: Entry)
    requires e in Entries(Retry(s, w, q, m).0, r) && e.holder != w
    ensures e in Entries(s, r)
  {
    hide CanGrant, DropResource;
  }

  /** Fewer calls and no new entries of the remaining ones: no new deadlock. */
  lemma NoNewDeadlock(s: LockState, calls: map<TxId, Want>, after: LockState, w: TxId, members: set<TxId>)
    requires forall r, e :: e in Entries(after, r) && e.holder != w ==> e in Entries(s, r)
    requires Deadlocked(after, calls - {w}, members)
    ensures Deadlocked(s, calls, members)
  {
    hide Entries, Blocks;
    forall v | v in members
      ensures Hindered(s, calls, members, v)
    {
      assert Hindered(after, calls - {w}, members, v);
      var u :| u in members && Blocks(after, (calls - {w})[v], u);
      assert u != w by {
        assert Hindered(after, calls - {w}, members, u);
      }
      OldEntryBlocks(s, after, calls[v], u, w);
    }
  }

  lemma OldEntryBlocks(s: LockState, after: LockState, want: Want, u: TxId, w: TxId)
    requires forall r, e :: e in Entries(after, r) && e.holder != w ==> e in Entries(s, r)
    requires Blocks(after, want, u) && u != w
    ensures Blocks(s, want, u)
  {
    hide Entries, Compatible;
    var e :| e in Entries(after, want.resource) && e.holder == u && !Compatible(e.mode, want.mode);
    assert e in Entries(s, want.resource);
  }

  /** No deadlocked set meets `goal`. */
  ghost predicate Spared(s: LockState, calls: map<TxId, Want>, goal: set<TxId>) {
    forall members :: Deadlocked(s, calls, members) ==> members !! goal
  }

  lemma {:induction false} UndeadlockedFinish(s: LockState, calls: map<TxId, Want>, goal: set<TxId>)
    returns (more: seq<Action>)
    requires Spared(s, calls, goal)
    ensures Finishes(s, calls, goal, more)
    decreases |calls|
  {
    hide Step, Deadlocked, Blocks, Retry, ReleaseEach, Entries, Outsiders;
    if calls.Keys !! goal {
      more := [];
    } else {
      var w := NextToFinish(s, calls);
      var want := calls[w];
      var us := Outsiders(Entries(s, want.resource), calls.Keys);
      OutsidersMembers(Entries(s, want.resource), calls.Keys);
      GrantAfterReleases(s, calls, w, us);
      var room := ReleaseEach(s, us);
      var a := DoRetry(w, want.resource, want.mode);
      RetryStep(room, w, want);
      forall members | Deadlocked(Step(room, a), calls - {w}, members)
        ensures members !! goal
      {
        NoNewDeadlock(s, calls, Step(room, a), w, members);
      }
      assert |calls - {w}| < |calls| by {
        assert (calls - {w}).Keys == calls.Keys - {w};
      }
      var rest := UndeadlockedFinish(Step(room, a), calls - {w}, goal);
      assert ([a] + rest)[1..] == rest;
      ReleasesFirst(s, calls, goal, us, [a] + rest);
      more := Releases(us) + ([a] + rest);
    }
  }

  lemma RetryStep(s: LockState, w: TxId, want: Want)
    ensures Step(s, DoRetry(w, want.resource, want.mode)) == Retry(s, w, want.resource, want.mode).0
  {}

  /** The calls of `goal` can all end in a grant by patience exactly when no deadlocked set meets it. */
  lemma PatienceHelpsIffSpared(s: LockState, calls: map<TxId, Want>, goal: set<TxId>)
    ensures (exists more :: Finishes(s, calls, goal, more)) <==> Spared(s, calls, goal)
  {
    hide Deadlocked, Finishes;
    if Spared(s, calls, goal) {
      var more := UndeadlockedFinish(s, calls, goal);
    } else {
      var members :| Deadlocked(s, calls, members) && !(members !! goal);
      var t :| t in members && t in goal;
      forall more
        ensures !Finishes(s, calls, goal, more)
      {
        DeadlockedNeverFinish(s, calls, members, t, goal, more);
      }
    }
  }

  /** A deadlock is exactly a table in which patience does not let every open call finish. */
  lemma StuckIffDeadlocked(s: LockState, calls: map<TxId, Want>)
    ensures (exists members :: Deadlocked(s, calls, members)) <==>
      !(exists more :: Finishes(s, calls, calls.Keys, more))
  {
    hide Deadlocked, Finishes;
    PatienceHelpsIffSpared(s, calls, calls.Keys);
    if members :| Deadlocked(s, calls, members) {
      DeadlockedWait(s, calls, members);
    }
  }

  /** The transaction is in a deadlocked set. */
  ghost predicate Doomed(s: LockState, calls: map<TxId, Want>, t: TxId) {
    exists members :: Deadlocked(s, calls, members) && t in members
  }

  /** A transaction is in a deadlocked set exactly when no patient continuation ends its call. */
  lemma DoomedIffNeverGranted(s: LockState, calls: map<TxId, Want>, t: TxId)
    ensures Doomed(s, calls, t) <==> !(exists more :: Finishes(s, calls, {t}, more))
  {
    hide Deadlocked, Finishes;
    PatienceHelpsIffSpared(s, calls, {t});
  }

  // ---------- What the search reports ----------

  lemma BlockerHolds(s: LockState, want: Want, u: TxId)
    requires Blocks(s, want, u)
    ensures Holds(s, u, want.resource)
  {
    var e :| e in Entries(s, want.resource) && e.holder == u && !Compatible(e.mode, want.mode);
    var i :| 0 <= i < |Entries(s, want.resource)| && Entries(s, want.resource)[i] == e;
  }

  /** In a tidy table an edge leads from a holder of the awaited resource to another waiting transaction. */
  lemma EdgeMeans(s: LockState, calls: map<TxId, Want>, u: TxId, w: TxId)
    requires Tidy(s, calls)
    ensures Edge(s, u, w) <==> u != w && w in s.waiting && Holds(s, u, calls[w].resource)
  {
    hide Holds, Idle;
    if w in s.waiting {
      assert s.waiting[w][0] == calls[w].resource;
    }
  }

  /** The edges whose holder really refuses the waiter. */
  ghost function RefusingEdges(s: LockState, calls: map<TxId, Want>): set<(TxId, TxId)> {
    set e: (TxId, TxId) | e in Edges(s) && e.1 in calls && Blocks(s, calls[e.1], e.0)
  }

  lemma RefusingEdgeMeans(s: LockState, calls: map<TxId, Want>, u: TxId, w: TxId)
    requires Tidy(s, calls)
    ensures (u, w) in RefusingEdges(s, calls) <==> u != w && w in s.waiting && Blocks(s, calls[w], u)
  {
    hide Edge, Edges, Blocks, Holds, Idle;
    EdgesComplete(s, u, w);
    EdgeMeans(s, calls, u, w);
    if w in calls && Blocks(s, calls[w], u) {
      BlockerHolds(s, calls[w], u);
    }
  }

  lemma OtherBlocker(s: LockState, calls: map<TxId, Want>, members: set<TxId>, w: TxId) returns (u: TxId)
    requires Tidy(s, calls) && MutuallyBlocked(s, calls, members) && w in members
    ensures w in calls && u in members && u != w && Blocks(s, calls[w], u) && u in s.waiting
  {
    hide Blocks, Holds;
    assert Hindered(s, calls, members - {w}, w);
    u :| u in members - {w} && Blocks(s, calls[w], u);
    BlockerHolds(s, calls[w], u);
    assert Hindered(s, calls, members - {u}, u);
  }

  /** The members still on the waiting lists block each other; the others hold nothing. */
  lemma WaitingMembersAreClosed(s: LockState, calls: map<TxId, Want>, members: set<TxId>)
    requires Tidy(s, calls) && MutuallyBlocked(s, calls, members)
    ensures ClosedBackwards(RefusingEdges(s, calls), members * s.waiting.Keys)
  {
    hide Tidy, MutuallyBlocked, Blocks, RefusingEdges;
    assert members != {} by {
      MutualSetIsInhabited(s, calls, members);
    }
    var any :| any in members;
    var first := OtherBlocker(s, calls, members, any);
    var shown := members * s.waiting.Keys;
    assert first in shown;
    forall w | w in shown
      ensures EnteredFrom(RefusingEdges(s, calls), shown, w)
    {
      var u := OtherBlocker(s, calls, members, w);
      RefusingEdgeMeans(s, calls, u, w);
      assert u in shown;
    }
  }

  lemma MutualSetIsInhabited(s: LockState, calls: map<TxId, Want>, members: set<TxId>)
    requires MutuallyBlocked(s, calls, members)
    ensures members != {}
  {}

  lemma RefusingClosedIsMutual(s: LockState, calls: map<TxId, Want>, members: set<TxId>)
    requires Tidy(s, calls) && ClosedBackwards(RefusingEdges(s, calls), members)
    ensures MutuallyBlocked(s, calls, members)
  {
    hide Blocks, RefusingEdges, Idle;
    forall w | w in members
      ensures Hindered(s, calls, members - {w}, w)
    {
      assert EnteredFrom(RefusingEdges(s, calls), members, w);
      var u :| u in members && (u, w) in RefusingEdges(s, calls);
      RefusingEdgeMeans(s, calls, u, w);
      assert u in members - {w};
    }
  }

  /** Some set is mutually blocked exactly when the graph has a cycle of refusing edges. */
  lemma MutualBlockIffRefusingCycle(s: LockState, calls: map<TxId, Want>)
    requires Tidy(s, calls)
    ensures (exists members :: MutuallyBlocked(s, calls, members)) <==> exists c :: Cycle(RefusingEdges(s, calls), c)
  {
    hide Tidy, MutuallyBlocked, RefusingEdges, Cycle, ClosedBackwards;
    if members :| MutuallyBlocked(s, calls, members) {
      WaitingMembersAreClosed(s, calls, members);
      var c := ClosedSetHasCycle(RefusingEdges(s, calls), members * s.waiting.Keys);
    }
    if c :| Cycle(RefusingEdges(s, calls), c) {
      CycleIsClosedSet(RefusingEdges(s, calls), c);
      RefusingClosedIsMutual(s, calls, set t | t in c);
    }
  }

  lemma ClosedGrows(few: set<(TxId, TxId)>, many: set<(TxId, TxId)>, members: set<TxId>)
    requires few <= many && ClosedBackwards(few, members)
    ensures ClosedBackwards(many, members)
  {
    forall w | w in members
      ensures EnteredFrom(many, members, w)
    {
      assert EnteredFrom(few, members, w);
    }
  }

  /** Transactions that block each other never go unnoticed: the search succeeds from a member. */
  lemma MutualBlockIsDetected(s: LockState, calls: map<TxId, Want>, members: set<TxId>)
    requires Tidy(s, calls) && MutuallyBlocked(s, calls, members)
    ensures exists w :: w in members && Trapped(s, {}, w)
  {
    hide Tidy, MutuallyBlocked, Trapped, ClosedBackwards, Edges, Blocks;
    WaitingMembersAreClosed(s, calls, members);
    ClosedGrows(RefusingEdges(s, calls), Edges(s), members * s.waiting.Keys);
    BlockedSetIsDetected(s, members * s.waiting.Keys);
    var w :| w in members * s.waiting.Keys && Trapped(s, {}, w);
    assert w in members;
  }

  ghost predicate SelfBlocked(s: LockState, calls: map<TxId, Want>, w: TxId) {
    w in calls && Blocks(s, calls[w], w)
  }

  /** A deadlock is a mutual block, or a transaction refused by an entry of its own. */
  lemma DeadlockIsMutualOrSelf(s: LockState, calls: map<TxId, Want>)
    ensures (exists members :: Deadlocked(s, calls, members)) <==>
      (exists members :: MutuallyBlocked(s, calls, members)) || exists w :: SelfBlocked(s, calls, w)
  {
    hide Deadlocked, MutuallyBlocked, SelfBlocked;
    if members :| Deadlocked(s, calls, members) {
      if forall w :: w in members ==> !SelfBlocked(s, calls, w) {
        NoSelfBlockIsMutual(s, calls, members);
      }
    }
    if members :| MutuallyBlocked(s, calls, members) {
      MutualIsDeadlock(s, calls, members);
    }
    if w :| SelfBlocked(s, calls, w) {
      SelfBlockIsDeadlock(s, calls, w);
    }
  }

  lemma SelfBlockIsDeadlock(s: LockState, calls: map<TxId, Want>, w: TxId)
    requires SelfBlocked(s, calls, w)
    ensures Deadlocked(s, calls, {w})
  {
    hide Blocks;
    assert w in {w};
    assert Hindered(s, calls, {w}, w);
  }

  lemma NoSelfBlockIsMutual(s: LockState, calls: map<TxId, Want>, members: set<TxId>)
    requires Deadlocked(s, calls, members) && forall w :: w in members ==> !SelfBlocked(s, calls, w)
    ensures MutuallyBlocked(s, calls, members)
  {
    hide Blocks;
    forall w | w in members
      ensures Hindered(s, calls, members - {w}, w)
    {
      assert Hindered(s, calls, members, w);
      var u :| u in members && Blocks(s, calls[w], u);
      assert u in members - {w};
    }
  }

  lemma MutualIsDeadlock(s: LockState, calls: map<TxId, Want>, members: set<TxId>)
    requires MutuallyBlocked(s, calls, members)
    ensures Deadlocked(s, calls, members)
  {
    hide Blocks;
    forall w | w in members
      ensures Hindered(s, calls, members, w)
    {
      assert Hindered(s, calls, members - {w}, w);
    }
  }

  /** When the search is silent, there is a deadlock exactly when some waiting transaction is
      refused by an entry of its own. */
  lemma MissedIffSelfBlocked(s: LockState, calls: map<TxId, Want>)
    requires Tidy(s, calls) && forall t :: !Trapped(s, {}, t)
    ensures (exists members :: Deadlocked(s, calls, members)) <==> exists w :: SelfBlocked(s, calls, w)
  {
    hide Tidy, Trapped, Deadlocked, MutuallyBlocked, SelfBlocked;
    DeadlockIsMutualOrSelf(s, calls);
    if members :| MutuallyBlocked(s, calls, members) {
      MutualBlockIsDetected(s, calls, members);
    }
  }

  /** After every real run, of the table as a whole: a mutual block is reported to a member, one exists
      exactly when some cycle of the graph has refusing edges only, and when the search is silent for
      all, a deadlock exists exactly with a self-blocked transaction. What the search tells a given
      transaction is the subject of module Verdicts. */
  lemma ReportsOverRuns(run: seq<Action>, k: nat)
    requires Real(run) && k <= |run|
    ensures
      var s, calls := StateAt(run, k), CallsAt(run, k);
      && (forall members :: MutuallyBlocked(s, calls, members) ==> exists w :: w in members && CycleReachable(s, w))
      && ((exists members :: MutuallyBlocked(s, calls, members)) <==> exists c :: Cycle(RefusingEdges(s, calls), c))
      && ((forall t :: !CycleReachable(s, t)) ==>
          ((exists members :: Deadlocked(s, calls, members)) <==> exists w :: SelfBlocked(s, calls, w)))
  {
    hide StateAt, CallsAt, Real, Tidy, MutuallyBlocked, Deadlocked, Trapped, CycleReachable, Cycle, SelfBlocked, RefusingEdges;
    var s, calls := StateAt(run, k), CallsAt(run, k);
    RunsAreTidy(run, k);
    forall t
      ensures Trapped(s, {}, t) <==> CycleReachable(s, t)
    {
      TrappedIffCycleReachable(s, t);
    }
    forall members | MutuallyBlocked(s, calls, members)
      ensures exists w :: w in members && CycleReachable(s, w)
    {
      MutualBlockIsDetected(s, calls, members);
    }
    MutualBlockIffRefusingCycle(s, calls);
    if forall t :: !CycleReachable(s, t) {
      MissedIffSelfBlocked(s, calls);
    }
  }

  // ---------- Modes that leave no doubt ----------

  /** Whoever holds a resource that refuses mode `m` has an entry that refuses it. */
  ghost predicate Decisive(m: Mode) {
    forall entries :: PairwiseCompatible(entries) && !CanGrant(entries, m) ==> RefuseAll(entries, m)
  }

  ghost predicate RefuseAll(entries: seq<Entry>, m: Mode) {
    forall e :: e in entries ==> !Compatible(e.mode, m)
  }

  /** A waiting mode for which every edge refuses: exactly X and IS. */
  lemma DecisiveIff(m: Mode)
    ensures Decisive(m) <==> m == X || m == IS
  {
    if m == X || m == IS {
      forall entries | PairwiseCompatible(entries) && !CanGrant(entries, m)
        ensures RefuseAll(entries, m)
      {
        RefusalIsUnanimous(entries, m);
      }
    } else {
      var other := if m == IX then S else IX;
      var entries := [Entry(IS, 1), Entry(other, 2)];
      assert PairwiseCompatible(entries);
      assert !Compatible(entries[1].mode, m);
      assert entries[0] in entries && Compatible(entries[0].mode, m);
    }
  }

  lemma RefusalIsUnanimous(entries: seq<Entry>, m: Mode)
    requires m == X || m == IS
    requires PairwiseCompatible(entries) && !CanGrant(entries, m)
    ensures RefuseAll(entries, m)
  {
    if m == IS {
      PairwiseMeans(entries);
      var i :| 0 <= i < |entries| && !Compatible(entries[i].mode, m);
      assert entries == [entries[i]];
    }
  }

  /** The open calls are refused right now, in modes X or IS. */
  ghost predicate RefusedInXOrIS(s: LockState, calls: map<TxId, Want>) {
    forall w :: w in calls ==>
      (calls[w].mode == X || calls[w].mode == IS) && !CanGrant(Entries(s, calls[w].resource), calls[w].mode)
  }

  lemma EdgeRefuses(s: LockState, calls: map<TxId, Want>, u: TxId, w: TxId)
    requires Tidy(s, calls) && Consistent(s) && RefusedInXOrIS(s, calls) && Edge(s, u, w)
    ensures (u, w) in RefusingEdges(s, calls)
  {
    hide Edge, PairwiseCompatible, CanGrant, RefusingEdges, Compatible, Idle;
    EdgeMeans(s, calls, u, w);
    var want := calls[w];
    var entries := Entries(s, want.resource);
    var i :| 0 <= i < |entries| && entries[i].holder == u;
    assert PairwiseCompatible(entries);
    RefusalIsUnanimous(entries, want.mode);
    assert entries[i] in entries;
    RefusingEdgeMeans(s, calls, u, w);
  }

  /** In a consistent table whose open calls are refused in X or IS, the search reports exactly
      the mutual blocks. */
  lemma ReportsAreExactForXAndIS(s: LockState, calls: map<TxId, Want>)
    requires Tidy(s, calls) && Consistent(s) && RefusedInXOrIS(s, calls)
    ensures (exists t :: Trapped(s, {}, t)) <==> exists members :: MutuallyBlocked(s, calls, members)
  {
    hide Tidy, Consistent, RefusedInXOrIS, Trapped, MutuallyBlocked, Edges, RefusingEdges, Cycle;
    TrapIffCycle(s);
    MutualBlockIffRefusingCycle(s, calls);
    forall e: (TxId, TxId)
      ensures e in Edges(s) <==> e in RefusingEdges(s, calls)
    {
      EdgesComplete(s, e.0, e.1);
      if e in Edges(s) {
        EdgeRefuses(s, calls, e.0, e.1);
      }
      RefusingEdgeIsEdge(s, calls, e);
    }
    assert Edges(s) == RefusingEdges(s, calls);
  }

  lemma RefusingEdgeIsEdge(s: LockState, calls: map<TxId, Want>, e: (TxId, TxId))
    ensures e in RefusingEdges(s, calls) ==> e in Edges(s)
  {}

  // ---------- The search errs both ways ----------

  /** A transaction that asks for X on what it holds in S waits for itself for ever, unreported. */
  lemma SelfBlockIsMissed()
    ensures
      var run := [DoRequest(1, "r", S), DoRequest(1, "r", X)];
      var s, calls := StateAt(run, 2), CallsAt(run, 2);
      && Real(run) && Deadlocked(s, calls, {1}) && Retry(s, 1, "r", X) == (s, Waiting)
      && forall t :: !CycleReachable(s, t)
  {
    hide Deadlocked, Retry, CycleReachable, Trapped;
    var run := [DoRequest(1, "r", S), DoRequest(1, "r", X)];
    var e := Entry(S, 1);
    RequestFree(Empty, 1, "r", S);
    var s1 := LockState(map["r" := [e]], map[]);
    RequestRefused(s1, 1, "r", X, 0);
    var s := LockState(map["r" := [e]], map[1 := ["r"]]);
    var calls := map[1 := Want("r", X)];
    assert StateAt(run, 1) == s1 && CallsAt(run, 1) == map[];
    assert StateAt(run, 2) == s && CallsAt(run, 2) == calls;
    assert e in Entries(s, "r");
    assert SelfBlocked(s, calls, 1);
    SelfBlockIsDeadlock(s, calls, 1);
    BlockedRetryIsRefused(s, 1, calls[1], 1);
    forall t
      ensures !CycleReachable(s, t)
    {
      TrappedIffCycleReachable(s, t);
      TrappedUnfolds(s, {}, t);
      assert forall w :: !Edge(s, t, w);
    }
  }

  /** 1 reads and 3 writes parts of "r"; 2 holds "a" and wants all of "r"; 1 wants "a". */
  const SpuriousRun := [
    DoRequest(1, "r", IS), DoRequest(3, "r", IX), DoRequest(2, "a", X), DoRequest(2, "r", S), DoRequest(1, "a", X)]

  const PartsHeld := map["r" := [Entry(IS, 1), Entry(IX, 3)], "a" := [Entry(X, 2)]]

  lemma SpuriousRunGrants()
    ensures StateAt(SpuriousRun, 3) == LockState(PartsHeld, map[]) && CallsAt(SpuriousRun, 3) == map[]
    ensures CallsAt(SpuriousRun, 1) == map[] && CallsAt(SpuriousRun, 2) == map[]
  {
    hide StateAt, CallsAt;
    var run := SpuriousRun;
    Start(run);
    Unfold(run, 0);
    Unfold(run, 1);
    Unfold(run, 2);
    RequestFree(Empty, 1, "r", IS);
    var s1 := LockState(map["r" := [Entry(IS, 1)]], map[]);
    assert StateAt(run, 1) == s1;
    assert Request(s1, 3, "r", IX) == (LockState(map["r" := [Entry(IS, 1), Entry(IX, 3)]], map[]), Granted) by {
      assert [Entry(IS, 1)] + [Entry(IX, 3)] == [Entry(IS, 1), Entry(IX, 3)];
      assert s1.granted["r" := [Entry(IS, 1), Entry(IX, 3)]] == map["r" := [Entry(IS, 1), Entry(IX, 3)]];
    }
    RequestFree(StateAt(run, 2), 2, "a", X);
    assert StateAt(run, 3).granted == PartsHeld;
  }

  lemma SpuriousRunWaits()
    ensures StateAt(SpuriousRun, 5) == LockState(PartsHeld, map[2 := ["r"], 1 := ["a"]])
    ensures CallsAt(SpuriousRun, 4) == map[2 := Want("r", S)]
    ensures CallsAt(SpuriousRun, 5) == map[2 := Want("r", S), 1 := Want("a", X)]
  {
    hide StateAt, CallsAt, Request;
    var run := SpuriousRun;
    SpuriousRunGrants();
    Unfold(run, 3);
    Unfold(run, 4);
    assert !Compatible(PartsHeld["r"][1].mode, S);
    RequestRefused(StateAt(run, 3), 2, "r", S, 1);
    RequestRefused(StateAt(run, 4), 1, "a", X, 0);
  }

  /** A cycle is reported where nobody is deadlocked: 2 is refused by 3 alone, which is running,
      yet 1 counts as a holder that 2 waits for. */
  lemma CompatibleHolderIsReported()
    ensures
      var s, calls := StateAt(SpuriousRun, 5), CallsAt(SpuriousRun, 5);
      && Real(SpuriousRun) && CycleReachable(s, 1) && CycleReachable(s, 2)
      && forall members :: !Deadlocked(s, calls, members)
  {
    hide StateAt, CallsAt, CycleReachable, Trapped;
    SpuriousRunGrants();
    SpuriousRunWaits();
    Start(SpuriousRun);
    var s, calls := StateAt(SpuriousRun, 5), CallsAt(SpuriousRun, 5);
    SpuriousCycle(s);
    forall members
      ensures !Deadlocked(s, calls, members)
    {
      SpuriousIsNoDeadlock(s, calls, members);
    }
  }

  lemma SpuriousCycle(s: LockState)
    requires s == LockState(PartsHeld, map[2 := ["r"], 1 := ["a"]])
    ensures CycleReachable(s, 1) && CycleReachable(s, 2)
  {
    hide CycleReachable, Trapped;
    assert Edge(s, 1, 2) by {
      assert Entries(s, "r")[0].holder == 1;
      assert Holds(s, 1, s.waiting[2][0]);
    }
    assert Edge(s, 2, 1) by {
      assert Entries(s, "a")[0].holder == 2;
      assert Holds(s, 2, s.waiting[1][0]);
    }
    RepeatIsTrap(s, [1, 2, 1], 0, 2);
    RepeatIsTrap(s, [2, 1, 2], 0, 2);
    TrappedIffCycleReachable(s, 1);
    TrappedIffCycleReachable(s, 2);
  }

  lemma SpuriousIsNoDeadlock(s: LockState, calls: map<TxId, Want>, members: set<TxId>)
    requires s.granted == PartsHeld && calls == map[2 := Want("r", S), 1 := Want("a", X)]
    ensures !Deadlocked(s, calls, members)
  {
    hide Hindered;
    OnlyTheRunningOneBlocks(s, calls, members);
  }

  lemma OnlyTheRunningOneBlocks(s: LockState, calls: map<TxId, Want>, members: set<TxId>)
    requires s.granted == PartsHeld && calls == map[2 := Want("r", S), 1 := Want("a", X)]
    ensures forall w :: Hindered(s, calls, members, w) ==> w == 1 || w == 2
    ensures Hindered(s, calls, members, 2) ==> 3 in members
    ensures Hindered(s, calls, members, 1) ==> 2 in members
  {
    hide Blocks;
    SpuriousBlockers(s);
  }

  lemma SpuriousBlockers(s: LockState)
    requires s.granted == PartsHeld
    ensures forall u :: Blocks(s, Want("r", S), u) ==> u == 3
    ensures forall u :: Blocks(s, Want("a", X), u) ==> u == 2
  {}
}
