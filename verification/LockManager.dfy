/** The lock manager object: its methods against the steps of LockTable and the graph of WaitGraph. */
module LockManagement {
  import opened LockTable
  import opened WaitGraph

  function OnPath(visited: map<TxId, bool>): set<TxId> {
    set t | t in visited && visited[t]
  }

  class LockManager {
    var granted: map<Resource, seq<Entry>>
    var waitingFor: map<TxId, seq<Resource>>

    function State(): LockState
      reads this
    {
      LockState(granted, waitingFor)
    }

    constructor ()
      ensures State() == Empty
    {
      granted, waitingFor := map[], map[];
    }

    /** `acquireLock` up to its wait loop. */
    method AcquireLock(t: TxId, r: Resource, mode: Mode) returns (status: Status)
      modifies this
      ensures (State(), status) == Request(old(State()), t, r, mode)
    {
      var current := if r in granted then granted[r] else [];
      if CanGrant(current, mode) {
        granted := granted[r := current + [Entry(mode, t)]];
        return Granted;
      }
      waitingFor := waitingFor[t := (if t in waitingFor then waitingFor[t] else []) + [r]];
      status := Waiting;
    }

    /** One turn of the wait loop, `elapsed` milliseconds after the request. */
    method WaitTurn(t: TxId, r: Resource, mode: Mode, elapsed: nat, timeout: nat) returns (status: Status)
      modifies this
      ensures status == TimedOut <==> elapsed > timeout
      ensures status == Deadlock <==>
        elapsed <= timeout && elapsed % 100 == 0 && CycleReachable(old(State()), t)
      ensures status == TimedOut || status == Deadlock ==> State() == StopWaiting(old(State()), t, r)
      ensures status == Granted || status == Waiting ==> (State(), status) == Retry(old(State()), t, r, mode)
    {
      if elapsed > timeout {
        RemoveFromWaitQueue(t, r);
        return TimedOut;
      }
      if elapsed % 100 == 0 {
        var deadlock := HasDeadlock(t);
        if deadlock {
          RemoveFromWaitQueue(t, r);
          return Deadlock;
        }
      }
      var current := if r in granted then granted[r] else [];
      if CanGrant(current, mode) {
        RemoveFromWaitQueue(t, r);
        granted := granted[r := current + [Entry(mode, t)]];
        return Granted;
      }
      status := Waiting;
    }

    method RemoveFromWaitQueue(t: TxId, r: Resource)
      modifies this`waitingFor
      ensures State() == StopWaiting(old(State()), t, r)
    {
      var rest := DropResource(if t in waitingFor then waitingFor[t] else [], r);
      waitingFor := waitingFor[t := rest];
      if rest == [] {
        waitingFor := waitingFor - {t};
      }
    }

    method ReleaseLock(t: TxId, r: Resource) returns (known: bool)
      modifies this`granted
      ensures known == (r in old(granted))
      ensures State() == Release(old(State()), t, r)
    {
      if r !in granted {
        return false;
      }
      granted := granted[r := DropHolder(granted[r], t)];
      if granted[r] == [] {
        granted := granted - {r};
      }
      known := true;
    }

    method ReleaseAllLocks(t: TxId)
      modifies this
      ensures State() == ReleaseAll(old(State()), t)
    {
      var pending := granted.Keys;
      while pending != {}
        invariant pending <= granted.Keys <= old(granted).Keys
        invariant waitingFor == old(waitingFor)
        invariant forall r :: r in pending ==> granted[r] == old(granted)[r]
        invariant forall r :: r in old(granted) && r !in pending ==>
          (r in granted <==> DropHolder(old(granted)[r], t) != [])
        invariant forall r :: r in granted && r !in pending ==> granted[r] == DropHolder(old(granted)[r], t)
        decreases pending
      {
        var r :| r in pending;
        var rest := DropHolder(granted[r], t);
        granted := if rest == [] then granted - {r} else granted[r := rest];
        pending := pending - {r};
      }
      waitingFor := waitingFor - {t};
      assert granted == ReleaseAll(old(State()), t).granted;
    }

    method UpgradeLock(t: TxId, r: Resource, mode: Mode) returns (status: Status)
      modifies this`granted
      ensures (State(), status) == Upgrade(old(State()), t, r, mode)
    {
      var locks := if r in granted then granted[r] else [];
      granted := granted[r := locks];
      var i := FirstHeld(locks, t);
      if i == |locks| {
        return TimedOut;
      }
      var others := locks[..i] + locks[i + 1..];
      if CanGrant(others, mode) {
        granted := granted[r := others + [Entry(mode, t)]];
        assert granted == old(granted)[r := others + [Entry(mode, t)]];
        return Granted;
      }
      granted := granted[r := others + [locks[i]]];
      assert granted == old(granted)[r := others + [locks[i]]];
      status := Waiting;
    }

    /** The transactions waiting for something `t` holds, in any order and possibly repeated. */
    method GetWaitingTransactions(t: TxId) returns (waiters: seq<TxId>)
      ensures forall w :: w in waiters <==> Edge(State(), t, w)
    {
      waiters := [];
      var pending := waitingFor.Keys;
      while pending != {}
        invariant pending <= waitingFor.Keys
        invariant forall w :: w in waiters <==> w !in pending && Edge(State(), t, w)
        decreases pending
      {
        var waiter :| waiter in pending;
        pending := pending - {waiter};
        if waiter != t {
          waiters := AddIfBlocked(t, waiter, waiters);
        }
      }
    }

    /** The scan of one waiter's resources inside `getWaitingTransactions`. */
    method AddIfBlocked(t: TxId, waiter: TxId, before: seq<TxId>) returns (waiters: seq<TxId>)
      requires waiter in waitingFor && waiter != t
      ensures forall w :: w in waiters <==> w in before || (w == waiter && Edge(State(), t, w))
    {
      waiters := before;
      var resources := waitingFor[waiter];
      for i := 0 to |resources|
        invariant forall w :: w in waiters <==>
          w in before || (w == waiter && exists k :: 0 <= k < i && Holds(State(), t, resources[k]))
      {
        var entries := if resources[i] in granted then granted[resources[i]] else [];
        assert entries == Entries(State(), resources[i]);
        if FirstHeld(entries, t) < |entries| {
          waiters := waiters + [waiter];
        }
      }
    }

    method HasDeadlock(t: TxId) returns (found: bool)
      ensures found <==> CycleReachable(State(), t)
    {
      var visited;
      found, visited := CheckDeadlock(t, map[]);
      assert OnPath(map[]) == {};
      TrappedIffCycleReachable(State(), t);
    }

    /** Depth-first search with a map of marks, cleared again on the way back. */
    method CheckDeadlock(start: TxId, marks: map<TxId, bool>) returns (found: bool, visited: map<TxId, bool>)
      ensures found <==> Trapped(State(), OnPath(marks), start)
      ensures !found ==> OnPath(visited) == OnPath(marks)
      decreases {start} + waitingFor.Keys - OnPath(marks)
    {
      hide Trapped, Edge;
      ghost var onPath := OnPath(marks);
      TrappedUnfolds(State(), onPath, start);
      if start in marks && marks[start] {
        return true, marks;
      }
      visited := marks[start := true];
      assert OnPath(visited) == onPath + {start};
      var waiters := GetWaitingTransactions(start);
      for i := 0 to |waiters|
        invariant OnPath(visited) == onPath + {start}
        invariant forall k :: 0 <= k < i ==> !Trapped(State(), onPath + {start}, waiters[k])
      {
        EdgeIntoWaiting(State(), start, waiters[i]);
        found, visited := CheckDeadlock(waiters[i], visited);
        if found {
          assert Edge(State(), start, waiters[i]);
          return;
        }
      }
      visited := visited[start := false];
      found := false;
    }
  }

  lemma EdgeIntoWaiting(s: LockState, u: TxId, w: TxId)
    requires Edge(s, u, w)
    ensures w in s.waiting
  {}
}
