/** What the cycle search tells one transaction, against whether that transaction is deadlocked. The
    search from `t` follows the edges from holders to waiters, so it looks at those who wait for
    `t`; whether `t` is deadlocked depends on those `t` waits for. */
module Verdicts {
  import opened LockTable
  import opened WaitGraph
  import opened OpenCalls
  import opened Deadlocks

  // ---------- Who is deadlocked ----------

  /** Which open call is refused by an entry of which waiting transaction, itself included. */
  ghost function BlockingEdges(s: LockState, calls: map<TxId, Want>): set<(TxId, TxId)> {
    set u, w | u in calls && w in calls && Blocks(s, calls[w], u) :: (u, w)
  }

  lemma BlockingEdgeMeans(s: LockState, calls: map<TxId, Want>, u: TxId, w: TxId)
    ensures (u, w) in BlockingEdges(s, calls) <==> u in calls && w in calls && Blocks(s, calls[w], u)
  {}

  lemma HinderedIsEntered(s: LockState, calls: map<TxId, Want>, members: set<TxId>, w: TxId)
    requires members <= calls.Keys
    ensures Hindered(s, calls, members, w) <==> EnteredFrom(BlockingEdges(s, calls), members, w)
  {
    hide Blocks, BlockingEdges;
    forall u
      ensures (u, w) in BlockingEdges(s, calls) <==> u in calls && w in calls && Blocks(s, calls[w], u)
    {
      BlockingEdgeMeans(s, calls, u, w);
    }
  }

  lemma DeadlockedIffClosed(s: LockState, calls: map<TxId, Want>, members: set<TxId>)
    ensures Deadlocked(s, calls, members) <==> ClosedBackwards(BlockingEdges(s, calls), members)
  {
    hide Hindered, EnteredFrom, BlockingEdges;
    if Deadlocked(s, calls, members) {
      DeadlockedWait(s, calls, members);
    }
    if ClosedBackwards(BlockingEdges(s, calls), members) {
      ClosedWait(s, calls, members);
    }
    if members <= calls.Keys {
      forall w
        ensures Hindered(s, calls, members, w) <==> EnteredFrom(BlockingEdges(s, calls), members, w)
      {
        HinderedIsEntered(s, calls, members, w);
      }
    }
  }

  lemma ClosedWait(s: LockState, calls: map<TxId, Want>, members: set<TxId>)
    requires ClosedBackwards(BlockingEdges(s, calls), members)
    ensures members <= calls.Keys
  {
    hide Blocks;
    forall w | w in members
      ensures w in calls
    {
      assert EnteredFrom(BlockingEdges(s, calls), members, w);
    }
  }

  ghost predicate OnRefusingCycle(s: LockState, calls: map<TxId, Want>, t: TxId) {
    exists c :: Cycle(RefusingEdges(s, calls), c) && t in c
  }

  /** Where deadlocks begin: a cycle of refusing edges, or a transaction refused by an entry of its own. */
  ghost predicate Root(s: LockState, calls: map<TxId, Want>, t: TxId) {
    SelfBlocked(s, calls, t) || OnRefusingCycle(s, calls, t)
  }

  /** Each transaction of the chain refuses the open call of the next, and `t` is the last. */
  ghost predicate ChainTo(s: LockState, calls: map<TxId, Want>, p: seq<TxId>, t: TxId) {
    p != [] && Follows(BlockingEdges(s, calls), p) && Last(p) == t
  }

  /** A blocker among the waiting transactions is still on the waiting lists. */
  lemma BlockerWaits(s: LockState, calls: map<TxId, Want>, u: TxId, w: TxId)
    requires Tidy(s, calls) && (u, w) in BlockingEdges(s, calls)
    ensures u in s.waiting
  {
    hide Blocks, Holds;
    BlockerHolds(s, calls[w], u);
  }

  lemma BlockingCycleRefuses(s: LockState, calls: map<TxId, Want>, c: seq<TxId>)
    requires Tidy(s, calls) && Cycle(BlockingEdges(s, calls), c)
    requires forall i :: 0 <= i < |c| ==> !SelfBlocked(s, calls, c[i])
    ensures Cycle(RefusingEdges(s, calls), c)
  {
    hide Tidy, Blocks, BlockingEdges, RefusingEdges;
    forall i | 0 <= i < |c| - 1
      ensures (c[i], c[i + 1]) in RefusingEdges(s, calls)
    {
      var next := if i + 1 == |c| - 1 then c[1] else c[i + 2];
      assert (c[i], c[i + 1]) in BlockingEdges(s, calls);
      assert (c[i + 1], next) in BlockingEdges(s, calls) by {
        assert i + 1 < |c| - 1 ==> (c[i + 1], c[i + 1 + 1]) in BlockingEdges(s, calls);
        assert (c[0], c[0 + 1]) in BlockingEdges(s, calls);
      }
      BlockingEdgeMeans(s, calls, c[i], c[i + 1]);
      BlockerWaits(s, calls, c[i + 1], next);
      RefusingEdgeMeans(s, calls, c[i], c[i + 1]);
    }
  }

  lemma RefusingCycleBlocks(s: LockState, calls: map<TxId, Want>, c: seq<TxId>)
    requires Tidy(s, calls) && Cycle(RefusingEdges(s, calls), c)
    ensures Cycle(BlockingEdges(s, calls), c)
  {
    hide Blocks, BlockingEdges, RefusingEdges, Idle;
    forall i | 0 <= i < |c| - 1
      ensures (c[i], c[i + 1]) in BlockingEdges(s, calls)
    {
      var prev := if i == 0 then |c| - 2 else i - 1;
      assert (c[prev], c[prev + 1]) in RefusingEdges(s, calls) && c[prev + 1] == c[i];
      assert (c[i], c[i + 1]) in RefusingEdges(s, calls);
      RefusingEdgeMeans(s, calls, c[prev], c[i]);
      RefusingEdgeMeans(s, calls, c[i], c[i + 1]);
      BlockingEdgeMeans(s, calls, c[i], c[i + 1]);
    }
  }

  lemma RootIsOnBlockingCycle(s: LockState, calls: map<TxId, Want>, t: TxId) returns (c: seq<TxId>)
    requires Tidy(s, calls) && Root(s, calls, t)
    ensures Cycle(BlockingEdges(s, calls), c) && t in c
  {
    hide Tidy, Blocks, BlockingEdges, RefusingEdges, Cycle;
    if SelfBlocked(s, calls, t) {
      c := [t, t];
      BlockingEdgeMeans(s, calls, t, t);
      LoopIsCycle(BlockingEdges(s, calls), t);
    } else {
      c :| Cycle(RefusingEdges(s, calls), c) && t in c;
      RefusingCycleBlocks(s, calls, c);
    }
  }

  lemma LoopIsCycle(edges: set<(TxId, TxId)>, t: TxId)
    requires (t, t) in edges
    ensures Cycle(edges, [t, t])
  {}

  lemma DoomedHasChain(s: LockState, calls: map<TxId, Want>, t: TxId) returns (p: seq<TxId>)
    requires Tidy(s, calls) && Doomed(s, calls, t)
    ensures ChainTo(s, calls, p, t) && Root(s, calls, p[0])
  {
    hide Tidy, Blocks, BlockingEdges, RefusingEdges, Deadlocked, SelfBlocked;
    var members :| Deadlocked(s, calls, members) && t in members;
    DeadlockedIffClosed(s, calls, members);
    var edges := BlockingEdges(s, calls);
    var c;
    c, p := MemberIsReached(edges, members, t);
    if i :| 0 <= i < |c| && SelfBlocked(s, calls, c[i]) {
      var d := c[i..|c|];
      FollowsSlice(edges, c, i, |c|);
      p := JoinedWalk(edges, d, p);
    } else {
      BlockingCycleRefuses(s, calls, c);
      assert c[0] in c;
    }
  }

  /** Two walks, the second from where the first ends. */
  lemma JoinedWalk(edges: set<(TxId, TxId)>, d: seq<TxId>, p: seq<TxId>) returns (q: seq<TxId>)
    requires d != [] && p != [] && Follows(edges, d) && Follows(edges, p) && Last(d) == p[0]
    ensures q != [] && Follows(edges, q) && q[0] == d[0] && Last(q) == Last(p)
  {
    q := d + p[1..];
    forall i | 0 <= i < |q| - 1
      ensures (q[i], q[i + 1]) in edges
    {
      if i < |d| - 1 {
        assert (d[i], d[i + 1]) in edges;
      } else {
        var k := i - (|d| - 1);
        assert (p[k], p[k + 1]) in edges;
      }
    }
  }

  /** A transaction is deadlocked exactly when a chain of blockers leads to it from a refusing cycle
      or from a transaction refused by an entry of its own. */
  lemma DoomedIffChain(s: LockState, calls: map<TxId, Want>, t: TxId)
    requires Tidy(s, calls)
    ensures Doomed(s, calls, t) <==> exists p :: ChainTo(s, calls, p, t) && Root(s, calls, p[0])
  {
    hide Tidy, BlockingEdges, Root, Deadlocked;
    if Doomed(s, calls, t) {
      var p := DoomedHasChain(s, calls, t);
    }
    if p :| ChainTo(s, calls, p, t) && Root(s, calls, p[0]) {
      var c := RootIsOnBlockingCycle(s, calls, p[0]);
      ReachedIsMember(BlockingEdges(s, calls), c, p);
      var members := (set x | x in c) + (set x | x in p);
      DeadlockedIffClosed(s, calls, members);
      assert p[|p| - 1] in members;
    }
  }

  // ---------- When the verdict is right ----------

  /** Whoever is on a refusing cycle is told so, and rightly. */
  lemma CycleMemberIsTold(s: LockState, calls: map<TxId, Want>, t: TxId)
    requires Tidy(s, calls) && OnRefusingCycle(s, calls, t)
    ensures Doomed(s, calls, t) && CycleReachable(s, t)
  {
    hide Tidy, CycleReachable, Trapped, Doomed, Edges, Blocks, BlockingEdges;
    var c :| Cycle(RefusingEdges(s, calls), c) && t in c;
    assert Root(s, calls, t) && ChainTo(s, calls, [t], t);
    DoomedIffChain(s, calls, t);
    var d := CycleFrom(RefusingEdges(s, calls), c, t);
    assert Cycle(Edges(s), d);
    CycleIsTrap(s, d);
    TrappedIffCycleReachable(s, t);
  }

  /** Every edge refuses, and no waiter has two of them. */
  ghost predicate SoleRefusers(s: LockState, calls: map<TxId, Want>) {
    forall u: TxId, w: TxId :: Edge(s, u, w) ==> (u, w) in RefusingEdges(s, calls) && forall v: TxId :: Edge(s, v, w) ==> v == u
  }

  /** Where no waiter has two edges, a walk that runs into itself began on the cycle. */
  lemma {:induction false} LassoIsCycle(s: LockState, calls: map<TxId, Want>, p: seq<TxId>, k: nat)
    requires SoleRefusers(s, calls) && Walk(s, p) && k < |p| - 1 && p[k] == Last(p)
    ensures OnRefusingCycle(s, calls, p[0])
    decreases k
  {
    hide Edge, RefusingEdges;
    if k == 0 {
      forall i | 0 <= i < |p| - 1
        ensures (p[i], p[i + 1]) in RefusingEdges(s, calls)
      {
        assert Edge(s, p[i], p[i + 1]);
      }
      assert Cycle(RefusingEdges(s, calls), p) && p[0] in p;
    } else {
      var q := p[0..|p| - 1];
      WalkSlice(s, p, 0, |p| - 1);
      assert Edge(s, p[k - 1], p[k - 1 + 1]);
      assert Edge(s, p[|p| - 2], p[|p| - 2 + 1]);
      LassoIsCycle(s, calls, q, k - 1);
    }
  }

  /** Where every edge refuses and no waiter has two of them, the search tells exactly the members of
      refusing cycles, so no report is wrong; it is silent to those behind a cycle. */
  lemma SoleRefusersVerdict(s: LockState, calls: map<TxId, Want>, t: TxId)
    requires Tidy(s, calls) && SoleRefusers(s, calls)
    ensures CycleReachable(s, t) <==> OnRefusingCycle(s, calls, t)
    ensures CycleReachable(s, t) ==> Doomed(s, calls, t)
  {
    hide Tidy, SoleRefusers, CycleReachable, Edge, OnRefusingCycle, Doomed;
    if OnRefusingCycle(s, calls, t) {
      CycleMemberIsTold(s, calls, t);
    }
    TrappedIffCycleReachable(s, t);
    if Trapped(s, {}, t) {
      var p :| Lasso(s, {}, p) && p[0] == t;
      var k :| 0 <= k < |p| - 1 && p[k] == Last(p);
      LassoIsCycle(s, calls, p, k);
      CycleMemberIsTold(s, calls, t);
    }
  }

  // ---------- Exclusive locks only ----------

  ghost predicate AllExclusive(s: LockState, calls: map<TxId, Want>) {
    && (forall r, e :: e in Entries(s, r) ==> e.mode == X)
    && (forall w :: w in calls ==> calls[w].mode == X)
  }

  lemma ExclusiveHolder(s: LockState, calls: map<TxId, Want>, u: TxId, r: Resource)
    requires Consistent(s) && AllExclusive(s, calls) && Holds(s, u, r)
    ensures Entries(s, r) == [Entry(X, u)]
  {
    hide PairwiseCompatible;
    var entries := Entries(s, r);
    var i :| 0 <= i < |entries| && entries[i].holder == u;
    assert entries[i] in entries;
    assert PairwiseCompatible(entries);
    PairwiseMeans(entries);
  }

  lemma ExclusiveIsSole(s: LockState, calls: map<TxId, Want>)
    requires Tidy(s, calls) && Consistent(s) && AllExclusive(s, calls)
    ensures SoleRefusers(s, calls)
  {
    hide Edge, RefusingEdges, Idle, Consistent, Holds;
    forall u: TxId, w: TxId | Edge(s, u, w)
      ensures (u, w) in RefusingEdges(s, calls) && forall v: TxId :: Edge(s, v, w) ==> v == u
    {
      EdgeMeans(s, calls, u, w);
      var r := calls[w].resource;
      ExclusiveHolder(s, calls, u, r);
      assert Entry(X, u) in Entries(s, r);
      assert Blocks(s, calls[w], u);
      RefusingEdgeMeans(s, calls, u, w);
      forall v: TxId | Edge(s, v, w)
        ensures v == u
      {
        EdgeMeans(s, calls, v, w);
        ExclusiveHolder(s, calls, v, r);
      }
    }
  }

  ghost predicate ExclusiveRun(run: seq<Action>) {
    forall i :: 0 <= i < |run| && (run[i].DoRequest? || run[i].DoUpgrade?) ==> run[i].mode == X
  }

  lemma StepEntries(s: LockState, a: Action, r: Resource, e: Entry)
    requires e in Entries(Step(s, a), r)
    ensures e in Entries(s, r) || ((a.DoRequest? || a.DoRetry? || a.DoUpgrade?) && e.mode == a.mode)
  {
    hide CanGrant, FirstHeld, DropResource, DropHolder;
    if a.DoRelease? || a.DoReleaseAll? {
      DropHolderMembers(Entries(s, r), a.tx);
    }
  }

  lemma StepKeepsExclusive(s: LockState, calls: map<TxId, Want>, a: Action)
    requires AllExclusive(s, calls) && Possible(calls, a)
    requires a.DoRequest? || a.DoUpgrade? ==> a.mode == X
    ensures AllExclusive(Step(s, a), CallsAfter(s, calls, a))
  {
    hide Step, Entries, Request, Retry;
    forall r, e | e in Entries(Step(s, a), r)
      ensures e.mode == X
    {
      StepEntries(s, a, r, e);
    }
  }

  lemma {:induction false} ExclusiveRuns(run: seq<Action>, k: nat)
    requires Real(run) && ExclusiveRun(run) && k <= |run|
    ensures AllExclusive(StateAt(run, k), CallsAt(run, k))
  {
    hide Real, Step, CallsAfter, Possible, AllExclusive;
    if k == 0 {
      NothingIsExclusive(run);
    } else {
      ExclusiveRuns(run, k - 1);
      Unfold(run, k - 1);
      StepKeepsExclusive(StateAt(run, k - 1), CallsAt(run, k - 1), run[k - 1]);
    }
  }

  lemma NothingIsExclusive(run: seq<Action>)
    ensures AllExclusive(StateAt(run, 0), CallsAt(run, 0))
  {}

  /** After every real run and for every transaction: it is deadlocked exactly when a chain of
      blockers leads to it from a refusing cycle or a self-blocked transaction; members of refusing
      cycles are told; and where only X is asked for, nobody else is. */
  lemma VerdictsOverRuns(run: seq<Action>, k: nat, t: TxId)
    requires Real(run) && k <= |run|
    ensures
      var s, calls := StateAt(run, k), CallsAt(run, k);
      && (Doomed(s, calls, t) <==> exists p :: ChainTo(s, calls, p, t) && Root(s, calls, p[0]))
      && (Doomed(s, calls, t) <==> !(exists more :: Finishes(s, calls, {t}, more)))
      && (OnRefusingCycle(s, calls, t) ==> Doomed(s, calls, t) && CycleReachable(s, t))
      && (ExclusiveRun(run) ==> (CycleReachable(s, t) <==> OnRefusingCycle(s, calls, t)))
  {
    hide StateAt, CallsAt, Real, Tidy, Doomed, ChainTo, Root, OnRefusingCycle, CycleReachable, Finishes,
      ExclusiveRun, Consistent, AllExclusive, SoleRefusers;
    var s, calls := StateAt(run, k), CallsAt(run, k);
    RunsAreTidy(run, k);
    DoomedIffChain(s, calls, t);
    DoomedIffNeverGranted(s, calls, t);
    if OnRefusingCycle(s, calls, t) {
      CycleMemberIsTold(s, calls, t);
    }
    if ExclusiveRun(run) {
      ExclusiveRuns(run, k);
      LockTableSafety(run, k, "");
      ExclusiveIsSole(s, calls);
      SoleRefusersVerdict(s, calls, t);
    }
  }

  // ---------- Three wrong verdicts ----------

  lemma HolderBlocks(s: LockState, want: Want, e: Entry, i: nat)
    requires i < |Entries(s, want.resource)| && Entries(s, want.resource)[i] == e && !Compatible(e.mode, want.mode)
    ensures Blocks(s, want, e.holder)
  {
    hide Compatible;
    assert e in Entries(s, want.resource);
  }

  lemma NoEdgeNoReport(s: LockState, t: TxId)
    requires forall w :: !Edge(s, t, w)
    ensures !CycleReachable(s, t) && forall onPath :: t !in onPath ==> !Trapped(s, onPath, t)
  {
    hide Edge, Trapped, CycleReachable;
    TrappedIffCycleReachable(s, t);
    forall onPath | t !in onPath
      ensures !Trapped(s, onPath, t)
    {
      TrappedUnfolds(s, onPath, t);
    }
  }

  /** 7 is refused by its own S; 8 waits behind it. */
  const BehindSelfRun := [DoRequest(7, "r", S), DoRequest(7, "r", X), DoRequest(8, "r", X)]

  lemma BehindSelfState()
    ensures Real(BehindSelfRun)
    ensures StateAt(BehindSelfRun, 3) == LockState(map["r" := [Entry(S, 7)]], map[7 := ["r"], 8 := ["r"]])
    ensures CallsAt(BehindSelfRun, 3) == map[7 := Want("r", X), 8 := Want("r", X)]
  {
    hide StateAt, CallsAt, Request;
    var run := BehindSelfRun;
    Start(run);
    Unfold(run, 0);
    Unfold(run, 1);
    Unfold(run, 2);
    RequestFree(StateAt(run, 0), 7, "r", S);
    RequestRefused(StateAt(run, 1), 7, "r", X, 0);
    RequestRefused(StateAt(run, 2), 8, "r", X, 0);
  }

  /** A transaction waiting behind a self-blocked one is deadlocked without being self-blocked, and
      nobody is told. */
  lemma BehindSelfBlockIsMissed()
    ensures
      var s, calls := StateAt(BehindSelfRun, 3), CallsAt(BehindSelfRun, 3);
      && Real(BehindSelfRun) && Doomed(s, calls, 8) && !SelfBlocked(s, calls, 8)
      && forall t :: !CycleReachable(s, t)
  {
    hide StateAt, CallsAt, Real, CycleReachable, Doomed, SelfBlocked;
    BehindSelfState();
    var s, calls := StateAt(BehindSelfRun, 3), CallsAt(BehindSelfRun, 3);
    BehindSelfIsDoomed(s, calls);
    forall t
      ensures !CycleReachable(s, t)
    {
      BehindSelfIsSilent(s, t);
    }
  }

  lemma BehindSelfIsDoomed(s: LockState, calls: map<TxId, Want>)
    requires s.granted == map["r" := [Entry(S, 7)]]
    requires calls == map[7 := Want("r", X), 8 := Want("r", X)]
    ensures Doomed(s, calls, 8) && !SelfBlocked(s, calls, 8)
  {
    hide Hindered;
    HolderBlocks(s, Want("r", X), Entry(S, 7), 0);
    var members: set<TxId> := {7, 8};
    HinderedBy(s, calls, members, 7, 7);
    HinderedBy(s, calls, members, 8, 7);
    assert Deadlocked(s, calls, members) && 8 in members by {
      assert 7 in members;
    }
  }

  lemma HinderedBy(s: LockState, calls: map<TxId, Want>, members: set<TxId>, w: TxId, u: TxId)
    requires w in calls && u in members && Blocks(s, calls[w], u)
    ensures Hindered(s, calls, members, w)
  {}

  lemma BehindSelfIsSilent(s: LockState, t: TxId)
    requires s == LockState(map["r" := [Entry(S, 7)]], map[7 := ["r"], 8 := ["r"]])
    ensures !CycleReachable(s, t)
  {
    hide CycleReachable, Trapped;
    assert forall u, w :: Edge(s, u, w) ==> u == 7 && w == 8;
    if t != 7 {
      NoEdgeNoReport(s, t);
    } else {
      NoEdgeNoReport(s, 8);
      TrappedUnfolds(s, {}, 7);
      TrappedIffCycleReachable(s, 7);
    }
  }

  /** 3 and 4 block each other; 1 shares "c" with 4 and waits for 9, which is running. */
  const BystanderRun := [
    DoRequest(9, "r", X), DoRequest(1, "c", S), DoRequest(4, "c", S), DoRequest(3, "d", X),
    DoRequest(1, "r", X), DoRequest(3, "c", X), DoRequest(4, "d", X)]

  const BystanderHeld := map["r" := [Entry(X, 9)], "c" := [Entry(S, 1), Entry(S, 4)], "d" := [Entry(X, 3)]]

  lemma BystanderGrants()
    ensures StateAt(BystanderRun, 4) == LockState(BystanderHeld, map[])
    ensures forall k :: 0 <= k <= 4 ==> CallsAt(BystanderRun, k) == map[]
  {
    hide StateAt, CallsAt, Request, CanGrant;
    var run := BystanderRun;
    Start(run);
    Unfold(run, 0);
    Unfold(run, 1);
    Unfold(run, 2);
    Unfold(run, 3);
    RequestFree(StateAt(run, 0), 9, "r", X);
    RequestFree(StateAt(run, 1), 1, "c", S);
    SharesWithOne(1);
    RequestJoins(StateAt(run, 2), 4, "c", S);
    RequestFree(StateAt(run, 3), 3, "d", X);
    assert StateAt(run, 4).granted == BystanderHeld by {
      assert [Entry(S, 1)] + [Entry(S, 4)] == [Entry(S, 1), Entry(S, 4)];
    }
  }

  lemma SharesWithOne(t: TxId)
    ensures CanGrant([Entry(S, t)], S)
  {}

  lemma BystanderWaits()
    ensures Real(BystanderRun)
    ensures StateAt(BystanderRun, 7) == LockState(BystanderHeld, map[1 := ["r"], 3 := ["c"], 4 := ["d"]])
    ensures CallsAt(BystanderRun, 7) == map[1 := Want("r", X), 3 := Want("c", X), 4 := Want("d", X)]
  {
    hide StateAt, CallsAt, Request;
    var run := BystanderRun;
    BystanderGrants();
    Unfold(run, 4);
    Unfold(run, 5);
    Unfold(run, 6);
    RequestRefused(StateAt(run, 4), 1, "r", X, 0);
    RequestRefused(StateAt(run, 5), 3, "c", X, 0);
    RequestRefused(StateAt(run, 6), 4, "d", X, 0);
  }

  /** A cycle of refusing edges is reported to a transaction that is not deadlocked: 3 waits for it,
      but what it waits for is held by a running transaction. */
  lemma BystanderIsTold()
    ensures
      var s, calls := StateAt(BystanderRun, 7), CallsAt(BystanderRun, 7);
      && Real(BystanderRun) && CycleReachable(s, 1) && !Doomed(s, calls, 1) && OnRefusingCycle(s, calls, 3)
  {
    hide StateAt, CallsAt, Real, CycleReachable, Trapped, Edge, OnRefusingCycle, Doomed;
    BystanderWaits();
    var s, calls := StateAt(BystanderRun, 7), CallsAt(BystanderRun, 7);
    RunsAreTidy(BystanderRun, 7);
    WaiterEdge(s, 1, 3, "c", 0);
    WaiterEdge(s, 4, 3, "c", 1);
    WaiterEdge(s, 3, 4, "d", 0);
    RepeatIsTrap(s, [1, 3, 4, 3], 1, 3);
    TrappedIffCycleReachable(s, 1);
    BystanderCycle(s, calls);
    BystanderIsFree(s, calls);
  }

  lemma BystanderCycle(s: LockState, calls: map<TxId, Want>)
    requires Tidy(s, calls) && s.granted == BystanderHeld && s.waiting.Keys == {1, 3, 4}
    requires calls == map[1 := Want("r", X), 3 := Want("c", X), 4 := Want("d", X)]
    ensures OnRefusingCycle(s, calls, 3)
  {
    hide Tidy, RefusingEdges, Blocks;
    HolderBlocks(s, calls[3], Entry(S, 4), 1);
    HolderBlocks(s, calls[4], Entry(X, 3), 0);
    RefusingEdgeMeans(s, calls, 4, 3);
    RefusingEdgeMeans(s, calls, 3, 4);
    assert Cycle(RefusingEdges(s, calls), [3, 4, 3]);
  }

  lemma BystanderIsFree(s: LockState, calls: map<TxId, Want>)
    requires s.granted == BystanderHeld
    requires calls == map[1 := Want("r", X), 3 := Want("c", X), 4 := Want("d", X)]
    ensures !Doomed(s, calls, 1)
  {
    assert forall u :: Blocks(s, calls[1], u) ==> u == 9;
    forall members
      ensures !(Deadlocked(s, calls, members) && 1 in members)
    {
      assert Hindered(s, calls, members, 1) ==> 9 in members;
      assert !Hindered(s, calls, members, 9);
    }
  }

  /** 1 and 2 block each other; 5 waits for 1. */
  const FollowerRun := [
    DoRequest(1, "a", X), DoRequest(2, "b", X), DoRequest(1, "b", X), DoRequest(2, "a", X), DoRequest(5, "a", X)]

  lemma FollowerState()
    ensures Real(FollowerRun)
    ensures StateAt(FollowerRun, 5) ==
      LockState(map["a" := [Entry(X, 1)], "b" := [Entry(X, 2)]], map[1 := ["b"], 2 := ["a"], 5 := ["a"]])
    ensures CallsAt(FollowerRun, 5) == map[1 := Want("b", X), 2 := Want("a", X), 5 := Want("a", X)]
  {
    hide StateAt, CallsAt, Request;
    var run := FollowerRun;
    Start(run);
    Unfold(run, 0);
    Unfold(run, 1);
    Unfold(run, 2);
    Unfold(run, 3);
    Unfold(run, 4);
    RequestFree(StateAt(run, 0), 1, "a", X);
    RequestFree(StateAt(run, 1), 2, "b", X);
    RequestRefused(StateAt(run, 2), 1, "b", X, 0);
    RequestRefused(StateAt(run, 3), 2, "a", X, 0);
    RequestRefused(StateAt(run, 4), 5, "a", X, 0);
  }

  /** A transaction waiting behind a deadlock is deadlocked and not told. */
  lemma FollowerIsNotTold()
    ensures
      var s, calls := StateAt(FollowerRun, 5), CallsAt(FollowerRun, 5);
      && Real(FollowerRun) && Doomed(s, calls, 5) && !CycleReachable(s, 5) && CycleReachable(s, 1)
  {
    hide StateAt, CallsAt, Real, CycleReachable, Trapped, Doomed;
    FollowerState();
    var s, calls := StateAt(FollowerRun, 5), CallsAt(FollowerRun, 5);
    FollowerIsDoomed(s, calls);
    NoEdgeNoReport(s, 5);
    WaiterEdge(s, 1, 2, "a", 0);
    WaiterEdge(s, 2, 1, "b", 0);
    RepeatIsTrap(s, [1, 2, 1], 0, 2);
    TrappedIffCycleReachable(s, 1);
  }

  lemma FollowerIsDoomed(s: LockState, calls: map<TxId, Want>)
    requires s.granted == map["a" := [Entry(X, 1)], "b" := [Entry(X, 2)]]
    requires calls == map[1 := Want("b", X), 2 := Want("a", X), 5 := Want("a", X)]
    ensures Doomed(s, calls, 5)
  {
    hide Blocks, Hindered;
    HolderBlocks(s, Want("a", X), Entry(X, 1), 0);
    HolderBlocks(s, Want("b", X), Entry(X, 2), 0);
    var members: set<TxId> := {1, 2, 5};
    HinderedBy(s, calls, members, 1, 2);
    HinderedBy(s, calls, members, 2, 1);
    HinderedBy(s, calls, members, 5, 1);
    assert Deadlocked(s, calls, members) && 5 in members by {
      assert 1 in members;
    }
  }
}
