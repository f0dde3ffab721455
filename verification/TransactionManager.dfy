/** The transaction manager's own deadlock search, its choice of a victim, and deadlock resolution. */
module TransactionManagement {
  import opened LockTable
  import opened WaitGraph
  import opened LockManagement

  datatype Priority = Low | Normal | High | Critical

  function Weight(p: Priority): nat {
    match p
    case Low => 0
    case Normal => 1
    case High => 2
    case Critical => 3
  }

  /** The order of the priorities, least important first: Low, Normal, High, Critical. */
  ghost predicate LessImportant(a: Priority, b: Priority) {
    || (a.Low? && !b.Low?)
    || (a.Normal? && (b.High? || b.Critical?))
    || (a.High? && b.Critical?)
  }

  ghost function Elements(p: seq<TxId>): set<TxId> {
    set t | t in p
  }

  /** `path` is `before` continued by a walk from `start` whose last node has an edge back into `path`. */
  ghost predicate ClosesCycle(s: LockState, before: seq<TxId>, start: TxId, path: seq<TxId>) {
    && |before| < |path| && before <= path && path[|before|] == start
    && Walk(s, path[|before|..])
    && exists y :: y in path && Edge(s, Last(path), y)
  }

  /** Every node of a path that closes a cycle has an outgoing edge. */
  lemma PathNodesHaveEdges(s: LockState, start: TxId, path: seq<TxId>, v: TxId)
    requires ClosesCycle(s, [], start, path) && v in path
    ensures exists w :: Edge(s, v, w)
  {
    hide Edge;
    var i :| 0 <= i < |path| && path[i] == v;
    if i < |path| - 1 {
      assert path[0..] == path;
      assert Edge(s, path[i], path[i + 1]);
    }
  }

  lemma ExtendCycle(s: LockState, before: seq<TxId>, start: TxId, w: TxId, path: seq<TxId>)
    requires Edge(s, start, w)
    requires if w in before + [start] then path == before + [start] else ClosesCycle(s, before + [start], w, path)
    ensures ClosesCycle(s, before, start, path)
  {
    hide Edge;
    if w in before + [start] {
      assert path[|before|..] == [start];
      assert Last(path) == start;
    } else {
      var rest := path[|before| + 1..];
      WalkJoin(s, [start], rest);
      assert path[|before|] == (before + [start])[|before|];
      assert path[|before|..] == [start] + rest;
      assert before == path[..|before|];
    }
  }

  /** `v` is the least important transaction of a simple path from `t` that closes a cycle. */
  ghost predicate IsVictim(s: LockState, active: map<TxId, Priority>, t: TxId, path: seq<TxId>, v: TxId) {
    && ClosesCycle(s, [], t, path) && Distinct(path)
    && v in path && (forall u :: u in path ==> u in active)
    && (forall u :: u in path ==> !LessImportant(active[u], active[v]))
  }

  /** `t` holds and awaits in `after` what it did in `before`. */
  ghost predicate KeepsAll(before: LockState, after: LockState, t: TxId) {
    WaitList(after, t) == WaitList(before, t) && forall r :: Holds(after, t, r) <==> Holds(before, t, r)
  }

  lemma ReleaseSparesOthers(s: LockState, v: TxId, t: TxId)
    requires t != v
    ensures KeepsAll(s, ReleaseAll(s, v), t)
  {
    forall r
      ensures Holds(ReleaseAll(s, v), t, r) <==> Holds(s, t, r)
    {
      ReleaseAllHolds(s, v, t, r);
    }
  }

  class TransactionManager {
    const locks: LockManager
    /** The active transactions with their priorities. */
    var active: map<TxId, Priority>

    constructor (locks: LockManager)
      ensures this.locks == locks && active == map[]
    {
      this.locks := locks;
      active := map[];
    }

    /** Search with the current path kept in a vector. It agrees with the lock manager's search;
        a failed search restores the vector, a successful one leaves a path that closes a cycle. */
    method CheckDeadlock(start: TxId, before: seq<TxId>) returns (found: bool, visited: seq<TxId>)
      ensures found <==> Trapped(locks.State(), Elements(before), start)
      ensures !found || start in before ==> visited == before
      ensures found && start !in before ==> ClosesCycle(locks.State(), before, start, visited)
      ensures Distinct(before) ==> Distinct(visited)
      decreases {start} + locks.waitingFor.Keys - Elements(before)
    {
      hide Trapped, Edge, ClosesCycle;
      ghost var s := locks.State();
      TrappedUnfolds(s, Elements(before), start);
      if start in before {
        return true, before;
      }
      visited := before + [start];
      assert Elements(visited) == Elements(before) + {start};
      var waiters := locks.GetWaitingTransactions(start);
      for i := 0 to |waiters|
        invariant visited == before + [start]
        invariant forall k :: 0 <= k < i ==> !Trapped(s, Elements(before) + {start}, waiters[k])
      {
        EdgeIntoWaiting(s, start, waiters[i]);
        found, visited := CheckDeadlock(waiters[i], visited);
        if found {
          ExtendCycle(s, before, start, waiters[i], visited);
          return;
        }
      }
      visited := visited[..|visited| - 1];
      found := false;
    }

    /** `std::min_element` by priority: the first of the least important. */
    method SelectVictim(visited: seq<TxId>) returns (v: nat)
      requires visited != [] && forall t :: t in visited ==> t in active
      ensures v < |visited|
      ensures forall k :: 0 <= k < |visited| ==> !LessImportant(active[visited[k]], active[visited[v]])
      ensures forall k :: 0 <= k < v ==> LessImportant(active[visited[v]], active[visited[k]])
    {
      v := 0;
      for i := 1 to |visited|
        invariant v < i
        invariant forall k :: 0 <= k < i ==> Weight(active[visited[v]]) <= Weight(active[visited[k]])
        invariant forall k :: 0 <= k < v ==> Weight(active[visited[v]]) < Weight(active[visited[k]])
      {
        if Weight(active[visited[i]]) < Weight(active[visited[v]]) {
          v := i;
        }
      }
    }

    /** The lock-table side of `abort`; `commit` has the same effect on it. */
    method Abort(t: TxId) returns (ok: bool)
      modifies this, locks
      ensures ok == (t in old(active))
      ensures active == old(active) - {t}
      ensures locks.State() == if ok then ReleaseAll(old(locks.State()), t) else old(locks.State())
    {
      if t !in active {
        assert active == active - {t};
        return false;
      }
      locks.ReleaseAllLocks(t);
      active := active - {t};
      ok := true;
    }

    /** Every waiting transaction is known to the manager. */
    ghost predicate Knows()
      reads this, locks
    {
      locks.waitingFor.Keys <= active.Keys
    }

    /** One turn of the detector over all active transactions, with no new requests meanwhile. */
    method DetectDeadlocks() returns (aborted: bool)
      requires Knows()
      modifies this, locks
      ensures Knows()
      ensures !aborted ==> locks.State() == old(locks.State()) && active == old(active)
      ensures !aborted ==> forall t :: t in active ==> !Trapped(locks.State(), {}, t)
      ensures aborted ==> |Edges(locks.State())| < |Edges(old(locks.State()))|
      ensures aborted <==> exists t :: t in old(active) && Trapped(old(locks.State()), {}, t)
      ensures active.Keys <= old(active).Keys
      ensures forall t :: t in active ==> KeepsAll(old(locks.State()), locks.State(), t)
    {
      hide Trapped, Edge, Edges, ReleaseAll, ClosesCycle, Holds, IsVictim;
      aborted := false;
      var pending := active.Keys;
      while pending != {}
        invariant Knows()
        invariant !aborted ==> locks.State() == old(locks.State()) && active == old(active)
        invariant !aborted ==> forall t :: t in active && t !in pending ==> !Trapped(locks.State(), {}, t)
        invariant aborted ==> |Edges(locks.State())| < |Edges(old(locks.State()))|
        invariant aborted ==> exists t :: t in old(active) && Trapped(old(locks.State()), {}, t)
        invariant active.Keys <= old(active).Keys
        invariant forall t :: t in active ==> KeepsAll(old(locks.State()), locks.State(), t)
        decreases pending
      {
        var t :| t in pending;
        pending := pending - {t};
        if t in active {
          var found := ResolveFrom(t);
          aborted := aborted || found;
        }
      }
    }

    /** The body of the detector loop for one transaction: on a cycle, the least important
        transaction of the path found is aborted, which removes at least one edge. */
    method ResolveFrom(t: TxId) returns (found: bool)
      requires Knows() && t in active
      modifies this, locks
      ensures Knows()
      ensures found <==> Trapped(old(locks.State()), {}, t)
      ensures !found ==> locks.State() == old(locks.State()) && active == old(active)
      ensures found ==> exists v, path ::
        && IsVictim(old(locks.State()), old(active), t, path, v)
        && active == old(active) - {v}
        && locks.State() == ReleaseAll(old(locks.State()), v)
      ensures found ==> |Edges(locks.State())| < |Edges(old(locks.State()))|
      ensures active.Keys <= old(active).Keys
      ensures forall t :: t in active ==> KeepsAll(old(locks.State()), locks.State(), t)
    {
      hide Trapped, Edge, Edges, Holds;
      ghost var s := locks.State();
      var visited;
      found, visited := CheckDeadlock(t, []);
      assert Elements([]) == {};
      if found {
        PathIsActive(s, t, visited);
        var i := SelectVictim(visited);
        var v := visited[i];
        PathNodesHaveEdges(s, t, visited, v);
        ghost var w :| Edge(s, v, w);
        ReleaseShrinksGraph(s, v, w);
        assert IsVictim(s, active, t, visited, v);
        var ok := Abort(v);
        forall u | u in active
          ensures KeepsAll(s, locks.State(), u)
        {
          ReleaseSparesOthers(s, v, u);
        }
      }
    }

    lemma PathIsActive(s: LockState, t: TxId, path: seq<TxId>)
      requires s == locks.State() && Knows() && t in active && ClosesCycle(s, [], t, path)
      ensures forall v :: v in path ==> v in active
    {
      hide Holds;
      assert path[0..] == path;
      forall i | 0 <= i < |path|
        ensures path[i] in active
      {
        if i > 0 {
          assert Edge(s, path[i - 1], path[i - 1 + 1]);
        }
      }
    }

    /** Deadlock resolution terminates: with no new requests, repeated turns of the detector
        reach a lock table in which no cycle is reachable from any transaction. Transactions
        that stay active keep their locks, and nothing happens when there was no cycle. */
    method ResolveAll()
      requires Knows()
      modifies this, locks
      ensures Knows()
      ensures forall t :: !CycleReachable(locks.State(), t)
      ensures active.Keys <= old(active).Keys
      ensures forall t :: t in active ==> KeepsAll(old(locks.State()), locks.State(), t)
      ensures (forall t :: !CycleReachable(old(locks.State()), t)) ==> locks.State() == old(locks.State())
    {
      hide Trapped, Edge, Edges, CycleReachable, Holds;
      ghost var s := locks.State();
      forall t
        ensures Trapped(s, {}, t) <==> CycleReachable(s, t)
      {
        TrappedIffCycleReachable(s, t);
      }
      var aborted := DetectDeadlocks();
      while aborted
        invariant Knows()
        invariant !aborted ==> forall t :: t in active ==> !Trapped(locks.State(), {}, t)
        invariant active.Keys <= old(active).Keys
        invariant forall t :: t in active ==> KeepsAll(s, locks.State(), t)
        invariant (forall t :: !CycleReachable(s, t)) ==> !aborted && locks.State() == s
        decreases |Edges(locks.State())|, aborted
      {
        aborted := DetectDeadlocks();
      }
      forall t
        ensures !CycleReachable(locks.State(), t)
      {
        TrappedIffCycleReachable(locks.State(), t);
        if Trapped(locks.State(), {}, t) {
          var w := TrapHasWaiter(locks.State(), t);
          assert false;
        }
      }
    }
  }
}
