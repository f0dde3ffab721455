/** The holder-to-waiter graph read off a lock table, and what a depth-first cycle search finds in it. */
module WaitGraph {
  import opened Common
  import opened LockTable

  predicate Holds(s: LockState, t: TxId, r: Resource) {
    exists i :: 0 <= i < |Entries(s, r)| && Entries(s, r)[i].holder == t
  }

  /** `w` waits for a resource on which `u` holds a lock. */
  predicate Edge(s: LockState, u: TxId, w: TxId) {
    w in s.waiting && w != u && exists i :: 0 <= i < |s.waiting[w]| && Holds(s, u, s.waiting[w][i])
  }

  ghost predicate Walk(s: LockState, p: seq<TxId>) {
    forall i :: 0 <= i < |p| - 1 ==> Edge(s, p[i], p[i + 1])
  }

  ghost function Last(p: seq<TxId>): TxId
    requires p != []
  {
    p[|p| - 1]
  }

  /** A walk that ends in `onPath` or runs into itself. */
  ghost predicate Lasso(s: LockState, onPath: set<TxId>, p: seq<TxId>) {
    p != [] && Walk(s, p) && (Last(p) in onPath || Last(p) in p[..|p| - 1])
  }

  ghost predicate Trapped(s: LockState, onPath: set<TxId>, t: TxId) {
    exists p :: Lasso(s, onPath, p) && p[0] == t
  }

  /** Some cycle of the graph can be reached from `t`. */
  ghost predicate CycleReachable(s: LockState, t: TxId) {
    exists p, c ::
      && p != [] && Walk(s, p) && p[0] == t
      && |c| >= 2 && Walk(s, c) && c[0] == Last(p) && Last(c) == c[0]
  }

  lemma WalkSlice(s: LockState, p: seq<TxId>, lo: nat, hi: nat)
    requires Walk(s, p) && lo <= hi <= |p|
    ensures Walk(s, p[lo..hi])
  {
    forall i | 0 <= i < |p[lo..hi]| - 1
      ensures Edge(s, p[lo..hi][i], p[lo..hi][i + 1])
    {
      assert Edge(s, p[lo + i], p[lo + i + 1]);
    }
  }

  lemma WalkJoin(s: LockState, p: seq<TxId>, q: seq<TxId>)
    requires Walk(s, p) && Walk(s, q)
    requires p != [] && q != [] ==> Edge(s, Last(p), q[0])
    ensures Walk(s, p + q)
  {
    forall i | 0 <= i < |p + q| - 1
      ensures Edge(s, (p + q)[i], (p + q)[i + 1])
    {
      if i < |p| - 1 {
        assert Edge(s, p[i], p[i + 1]);
      } else if i >= |p| {
        assert Edge(s, q[i - |p|], q[i - |p| + 1]);
      }
    }
  }

  lemma TrappedThroughEdge(s: LockState, onPath: set<TxId>, t: TxId, w: TxId)
    requires Edge(s, t, w) && Trapped(s, onPath + {t}, w)
    ensures Trapped(s, onPath, t)
  {
    hide Edge;
    var q :| Lasso(s, onPath + {t}, q) && q[0] == w;
    WalkJoin(s, [t], q);
    var p := [t] + q;
    if Last(q) in q[..|q| - 1] {
      var k :| 0 <= k < |q| - 1 && q[k] == Last(q);
      assert p[..|p| - 1][k + 1] == Last(p);
    } else if Last(q) == t {
      assert p[..|p| - 1][0] == t;
    }
    assert Lasso(s, onPath, p);
  }

  lemma TrappedOffPath(s: LockState, onPath: set<TxId>, t: TxId) returns (w: TxId)
    requires t !in onPath && Trapped(s, onPath, t)
    ensures Edge(s, t, w) && Trapped(s, onPath + {t}, w)
  {
    hide Edge;
    var p :| Lasso(s, onPath, p) && p[0] == t;
    var q := p[1..];
    w := p[1];
    assert Edge(s, p[0], p[0 + 1]);
    WalkSlice(s, p, 1, |p|);
    if Last(p) !in onPath + {t} {
      var k :| 0 <= k < |p| - 1 && p[k] == Last(p);
      assert q[..|q| - 1][k - 1] == Last(q);
    }
    assert Lasso(s, onPath + {t}, q);
  }

  /** The depth-first recurrence: a search from `t` succeeds when `t` is on the current path,
      or when the search from one of its waiters does. */
  lemma TrappedUnfolds(s: LockState, onPath: set<TxId>, t: TxId)
    ensures Trapped(s, onPath, t) <==> t in onPath || exists w :: Edge(s, t, w) && Trapped(s, onPath + {t}, w)
  {
    hide Edge, Trapped;
    if t in onPath {
      OnPathIsTrapped(s, onPath, t);
    } else if Trapped(s, onPath, t) {
      var w := TrappedOffPath(s, onPath, t);
    } else {
      forall w | Edge(s, t, w)
        ensures !Trapped(s, onPath + {t}, w)
      {
        if Trapped(s, onPath + {t}, w) {
          TrappedThroughEdge(s, onPath, t, w);
        }
      }
    }
  }

  lemma OnPathIsTrapped(s: LockState, onPath: set<TxId>, t: TxId)
    requires t in onPath
    ensures Trapped(s, onPath, t)
  {
    assert Lasso(s, onPath, [t]);
  }

  /** A repetition inside a walk closes a lasso. */
  lemma RepeatIsTrap(s: LockState, p: seq<TxId>, i: nat, j: nat)
    requires Walk(s, p) && i < j < |p| && p[i] == p[j]
    ensures Trapped(s, {}, p[0])
  {
    hide Edge;
    var q := p[..j + 1];
    WalkSlice(s, p, 0, j + 1);
    assert p[0..j + 1] == q;
    assert q[..|q| - 1][i] == Last(q);
    assert Lasso(s, {}, q);
  }

  /** Search success from an empty path means exactly that a cycle is reachable. */
  lemma TrappedIffCycleReachable(s: LockState, t: TxId)
    ensures Trapped(s, {}, t) <==> CycleReachable(s, t)
  {
    hide Trapped, CycleReachable;
    if Trapped(s, {}, t) {
      TrapReachesCycle(s, t);
    }
    if CycleReachable(s, t) {
      ReachedCycleIsTrap(s, t);
    }
  }

  lemma TrapReachesCycle(s: LockState, t: TxId)
    requires Trapped(s, {}, t)
    ensures CycleReachable(s, t)
  {
    hide Edge;
    var p :| Lasso(s, {}, p) && p[0] == t;
    var k :| 0 <= k < |p| - 1 && p[k] == Last(p);
    WalkSlice(s, p, 0, k + 1);
    WalkSlice(s, p, k, |p|);
    var stem, c := p[0..k + 1], p[k..|p|];
    assert Last(stem) == c[0] && Last(c) == c[0];
  }

  lemma ReachedCycleIsTrap(s: LockState, t: TxId)
    requires CycleReachable(s, t)
    ensures Trapped(s, {}, t)
  {
    hide Edge, Trapped;
    var p, c :| p != [] && Walk(s, p) && p[0] == t && |c| >= 2 && Walk(s, c) && c[0] == Last(p) && Last(c) == c[0];
    assert Edge(s, c[0], c[0 + 1]);
    WalkSlice(s, c, 1, |c|);
    WalkJoin(s, p, c[1..|c|]);
    var q := p + c[1..|c|];
    RepeatIsTrap(s, q, |p| - 1, |q| - 1);
  }

  /** Where a cycle can be reached at all, it can be reached from a waiting transaction. */
  lemma TrapHasWaiter(s: LockState, t: TxId) returns (w: TxId)
    requires Trapped(s, {}, t)
    ensures w in s.waiting && Trapped(s, {}, w)
  {
    hide Holds;
    var p :| Lasso(s, {}, p) && p[0] == t;
    var k :| 0 <= k < |p| - 1 && p[k] == Last(p);
    w := p[1];
    assert Edge(s, p[0], p[0 + 1]);
    WalkSlice(s, p, 1, |p|);
    if k > 0 {
      RepeatIsTrap(s, p[1..|p|], k - 1, |p| - 2);
    } else {
      WalkJoin(s, p[1..|p|], [w]);
      RepeatIsTrap(s, p[1..|p|] + [w], 0, |p| - 1);
    }
  }

  // ---------- Blocked sets ----------

  ghost predicate Distinct(p: seq<TxId>) {
    forall i, j :: 0 <= i < j < |p| ==> p[i] != p[j]
  }

  lemma {:induction false} DistinctFits(p: seq<TxId>, members: set<TxId>)
    requires Distinct(p) && forall i :: 0 <= i < |p| ==> p[i] in members
    ensures |p| <= |members|
  {
    if p != [] {
      var rest := p[1..];
      forall i | 0 <= i < |rest|
        ensures rest[i] in members - {p[0]}
      {
        assert rest[i] == p[i + 1];
      }
      DistinctFits(rest, members - {p[0]});
    }
  }

  /** A walk along a given set of edges that ends where it began. */
  ghost predicate Cycle(edges: set<(TxId, TxId)>, c: seq<TxId>) {
    |c| >= 2 && c[0] == Last(c) && Follows(edges, c)
  }

  ghost predicate Follows(edges: set<(TxId, TxId)>, p: seq<TxId>) {
    forall i :: 0 <= i < |p| - 1 ==> (p[i], p[i + 1]) in edges
  }

  ghost predicate EnteredFrom(edges: set<(TxId, TxId)>, members: set<TxId>, w: TxId) {
    exists u :: u in members && (u, w) in edges
  }

  /** Every member has an edge from a member. */
  ghost predicate ClosedBackwards(edges: set<(TxId, TxId)>, members: set<TxId>) {
    members != {} && forall w :: w in members ==> EnteredFrom(edges, members, w)
  }

  /** Following edges backwards from a member of such a set never gets stuck. */
  lemma {:induction false} BackwardWalk(edges: set<(TxId, TxId)>, members: set<TxId>, t: TxId, n: nat)
    returns (p: seq<TxId>)
    requires ClosedBackwards(edges, members) && t in members
    ensures |p| == n + 1 && Last(p) == t && Follows(edges, p) && forall i :: 0 <= i < |p| ==> p[i] in members
  {
    if n == 0 {
      p := [t];
    } else {
      var rest := BackwardWalk(edges, members, t, n - 1);
      assert EnteredFrom(edges, members, rest[0]);
      var u :| u in members && (u, rest[0]) in edges;
      p := [u] + rest;
    }
  }

  lemma FollowsSlice(edges: set<(TxId, TxId)>, p: seq<TxId>, lo: nat, hi: nat)
    requires Follows(edges, p) && lo <= hi <= |p|
    ensures Follows(edges, p[lo..hi])
  {
    var c := p[lo..hi];
    forall k | 0 <= k < |c| - 1
      ensures (c[k], c[k + 1]) in edges
    {
      assert (p[lo + k], p[lo + k + 1]) in edges;
    }
  }

  /** A member of such a set is reached from a cycle inside the set. */
  lemma MemberIsReached(edges: set<(TxId, TxId)>, members: set<TxId>, t: TxId)
    returns (c: seq<TxId>, p: seq<TxId>)
    requires ClosedBackwards(edges, members) && t in members
    ensures Cycle(edges, c) && (forall i :: 0 <= i < |c| ==> c[i] in members)
    ensures p != [] && Follows(edges, p) && p[0] == c[0] && Last(p) == t
  {
    hide ClosedBackwards, Follows;
    var all := BackwardWalk(edges, members, t, |members|);
    if Distinct(all) {
      DistinctFits(all, members);
      assert false;
    }
    var i, j :| 0 <= i < j < |all| && all[i] == all[j];
    c, p := all[i..j + 1], all[i..|all|];
    FollowsSlice(edges, all, i, j + 1);
    FollowsSlice(edges, all, i, |all|);
  }

  /** Such a set contains a cycle. */
  lemma ClosedSetHasCycle(edges: set<(TxId, TxId)>, members: set<TxId>) returns (c: seq<TxId>)
    requires ClosedBackwards(edges, members)
    ensures Cycle(edges, c) && forall i :: 0 <= i < |c| ==> c[i] in members
  {
    var t :| t in members;
    var p;
    c, p := MemberIsReached(edges, members, t);
  }

  /** The nodes of a cycle form such a set. */
  lemma CycleIsClosedSet(edges: set<(TxId, TxId)>, c: seq<TxId>)
    requires Cycle(edges, c)
    ensures ClosedBackwards(edges, set t | t in c)
  {
    var members := set t | t in c;
    assert c[0] in members;
    forall w | w in members
      ensures EnteredFrom(edges, members, w)
    {
      var i :| 0 <= i < |c| && c[i] == w;
      var k := if i == 0 then |c| - 2 else i - 1;
      assert c[k + 1] == w && c[k] in members && (c[k], c[k + 1]) in edges;
    }
  }

  /** Whatever is reached from a cycle lies in such a set. */
  lemma ReachedIsMember(edges: set<(TxId, TxId)>, c: seq<TxId>, p: seq<TxId>)
    requires Cycle(edges, c) && p != [] && Follows(edges, p) && p[0] in c
    ensures ClosedBackwards(edges, (set t | t in c) + (set t | t in p))
  {
    hide Cycle;
    CycleIsClosedSet(edges, c);
    var ring, tail := set t | t in c, set t | t in p;
    forall w | w in ring + tail
      ensures EnteredFrom(edges, ring + tail, w)
    {
      if w in ring {
        assert EnteredFrom(edges, ring, w);
      } else {
        var i :| 0 <= i < |p| && p[i] == w;
        assert p[i - 1] in tail && (p[i - 1], p[i - 1 + 1]) in edges;
      }
    }
  }

  /** A cycle may begin at any of its nodes. */
  lemma CycleFrom(edges: set<(TxId, TxId)>, c: seq<TxId>, t: TxId) returns (d: seq<TxId>)
    requires Cycle(edges, c) && t in c
    ensures Cycle(edges, d) && d[0] == t
  {
    var k :| 0 <= k < |c| && c[k] == t;
    var i := if k == |c| - 1 then 0 else k;
    d := c[i..] + c[1..i + 1];
    forall j | 0 <= j < |d| - 1
      ensures (d[j], d[j + 1]) in edges
    {
      var at := if j < |c| - i - 1 then i + j else j - (|c| - i) + 1;
      assert (c[at], c[at + 1]) in edges;
    }
  }

  /** The search succeeds somewhere exactly when the edges have a cycle. */
  lemma TrapIffCycle(s: LockState)
    ensures (exists t :: Trapped(s, {}, t)) <==> exists c :: Cycle(Edges(s), c)
  {
    hide Edge, Edges;
    if t :| Trapped(s, {}, t) {
      var p :| Lasso(s, {}, p) && p[0] == t;
      var k :| 0 <= k < |p| - 1 && p[k] == Last(p);
      var c := p[k..];
      forall i | 0 <= i < |c| - 1
        ensures (c[i], c[i + 1]) in Edges(s)
      {
        assert Edge(s, p[k + i], p[k + i + 1]);
        EdgesComplete(s, c[i], c[i + 1]);
      }
      assert Cycle(Edges(s), c);
    }
    if c :| Cycle(Edges(s), c) {
      CycleIsTrap(s, c);
    }
  }

  lemma CycleIsTrap(s: LockState, c: seq<TxId>)
    requires Cycle(Edges(s), c)
    ensures Trapped(s, {}, c[0])
  {
    hide Edge, Edges, Trapped;
    forall i | 0 <= i < |c| - 1
      ensures Edge(s, c[i], c[i + 1])
    {
      EdgesComplete(s, c[i], c[i + 1]);
    }
    RepeatIsTrap(s, c, 0, |c| - 1);
  }

  /** A non-empty set of waiters, each with an edge from a member, has a member from which the
      search succeeds. The edges know no modes and no loops; module Deadlocks tells when such a
      set is a deadlock. */
  lemma BlockedSetIsDetected(s: LockState, members: set<TxId>)
    requires ClosedBackwards(Edges(s), members)
    ensures exists w :: w in members && Trapped(s, {}, w)
  {
    hide ClosedBackwards, Edges, Trapped, Cycle;
    var c := ClosedSetHasCycle(Edges(s), members);
    CycleIsTrap(s, c);
    CycleIsLong(Edges(s), c);
  }

  lemma CycleIsLong(edges: set<(TxId, TxId)>, c: seq<TxId>)
    requires Cycle(edges, c)
    ensures |c| >= 2
  {}

  // ---------- How steps change holding and waiting ----------

  lemma {:induction false} DropResourceMembers(rs: seq<Resource>, r: Resource)
    ensures forall q :: q in DropResource(rs, r) <==> q in rs && q != r
  {
    if rs != [] {
      DropResourceMembers(rs[1..], r);
      assert rs == [rs[0]] + rs[1..];
    }
  }

  /** A request that is not granted has an incompatible entry against it and shows in the graph:
      every other holder of the resource gets an edge to the requester. */
  lemma BlockedRequestIsSeen(s: LockState, t: TxId, r: Resource, m: Mode)
    requires Request(s, t, r, m).1 != Granted
    ensures exists e :: e in Entries(s, r) && !Compatible(e.mode, m)
    ensures forall u :: u != t && Holds(s, u, r) ==> Edge(Request(s, t, r, m).0, u, t)
    ensures forall u, q :: Holds(Request(s, t, r, m).0, u, q) <==> Holds(s, u, q)
  {
    var after := Request(s, t, r, m).0;
    var list := after.waiting[t];
    assert list[|list| - 1] == r;
    forall u, q
      ensures Holds(after, u, q) <==> Holds(s, u, q)
    {
      assert Entries(after, q) == Entries(s, q);
    }
    forall u | u != t && Holds(s, u, r)
      ensures Edge(after, u, t)
    {
      assert Holds(after, u, list[|list| - 1]);
    }
  }

  /** A retry that is granted holds the resource, no longer waits for it, and was compatible with all entries. */
  lemma GrantEndsWaiting(s: LockState, t: TxId, r: Resource, m: Mode)
    requires Retry(s, t, r, m).1 == Granted
    ensures Holds(Retry(s, t, r, m).0, t, r) && r !in WaitList(Retry(s, t, r, m).0, t)
    ensures forall q :: q != r ==> (q in WaitList(Retry(s, t, r, m).0, t) <==> q in WaitList(s, t))
    ensures forall e :: e in Entries(s, r) ==> Compatible(e.mode, m)
  {
    hide Compatible;
    DropResourceMembers(WaitList(s, t), r);
    var entries := Entries(Retry(s, t, r, m).0, r);
    assert entries[|entries| - 1].holder == t;
  }

  /** Releasing one resource takes exactly that transaction off exactly that resource. */
  lemma ReleaseHolds(s: LockState, v: TxId, r: Resource, u: TxId, q: Resource)
    ensures Holds(Release(s, v, r), u, q) <==> Holds(s, u, q) && !(u == v && q == r)
  {
    var before, after := Entries(s, q), Entries(Release(s, v, r), q);
    if q == r {
      DropHolderMembers(before, v);
      assert forall e :: e in after <==> e in before && e.holder != v;
      SameMembersHold(before, after, u, v);
    }
  }

  lemma SameMembersHold(before: seq<Entry>, after: seq<Entry>, u: TxId, v: TxId)
    requires forall e :: e in after <==> e in before && e.holder != v
    ensures (exists i :: 0 <= i < |after| && after[i].holder == u) <==>
      (exists i :: 0 <= i < |before| && before[i].holder == u) && u != v
  {
    if i :| 0 <= i < |before| && before[i].holder == u && u != v {
      assert before[i] in after;
    }
    if i :| 0 <= i < |after| && after[i].holder == u {
      assert after[i] in before;
    }
  }

  lemma WaiterEdge(s: LockState, u: TxId, w: TxId, r: Resource, i: nat)
    requires u != w && w in s.waiting && s.waiting[w] == [r] && i < |Entries(s, r)| && Entries(s, r)[i].holder == u
    ensures Edge(s, u, w)
  {
    assert Holds(s, u, s.waiting[w][0]);
  }

  // ---------- Release ----------

  lemma ReleaseAllHolds(s: LockState, v: TxId, u: TxId, r: Resource)
    ensures Holds(ReleaseAll(s, v), u, r) <==> Holds(s, u, r) && u != v
  {
    var before, after := Entries(s, r), Entries(ReleaseAll(s, v), r);
    DropHolderMembers(before, v);
    assert forall e :: e in after <==> e in before && e.holder != v;
    SameMembersHold(before, after, u, v);
  }

  /** Releasing a transaction removes exactly the edges that touch it and adds none. */
  lemma ReleaseAllEdges(s: LockState, v: TxId, u: TxId, w: TxId)
    ensures Edge(ReleaseAll(s, v), u, w) <==> Edge(s, u, w) && u != v && w != v
  {
    hide Holds;
    forall r
      ensures Holds(ReleaseAll(s, v), u, r) <==> Holds(s, u, r) && u != v
    {
      ReleaseAllHolds(s, v, u, r);
    }
    var after := ReleaseAll(s, v);
    if w in after.waiting {
      assert after.waiting[w] == s.waiting[w];
      assert forall i :: 0 <= i < |s.waiting[w]| ==>
        (Holds(after, u, s.waiting[w][i]) <==> Holds(s, u, s.waiting[w][i]) && u != v);
    }
  }

  ghost function Holders(s: LockState): set<TxId> {
    set r, i | r in s.granted && 0 <= i < |s.granted[r]| :: s.granted[r][i].holder
  }

  ghost function Edges(s: LockState): set<(TxId, TxId)> {
    set u, w | u in Holders(s) && w in s.waiting && Edge(s, u, w) :: (u, w)
  }

  lemma EdgesComplete(s: LockState, u: TxId, w: TxId)
    ensures (u, w) in Edges(s) <==> Edge(s, u, w)
  {
    if Edge(s, u, w) {
      var i :| 0 <= i < |s.waiting[w]| && Holds(s, u, s.waiting[w][i]);
      var r := s.waiting[w][i];
      assert r in s.granted;
    }
  }

  /** Releasing a transaction with an edge makes the graph strictly smaller. */
  lemma ReleaseShrinksGraph(s: LockState, v: TxId, w: TxId)
    requires Edge(s, v, w)
    ensures |Edges(ReleaseAll(s, v))| < |Edges(s)|
    ensures Edges(ReleaseAll(s, v)) == set e | e in Edges(s) && e.0 != v && e.1 != v
  {
    hide Edge, Edges, ReleaseAll;
    var after := Edges(ReleaseAll(s, v));
    forall e: (TxId, TxId)
      ensures e in after <==> e in Edges(s) && e.0 != v && e.1 != v
    {
      ReleaseAllEdges(s, v, e.0, e.1);
      EdgesComplete(s, e.0, e.1);
      EdgesComplete(ReleaseAll(s, v), e.0, e.1);
    }
    EdgesComplete(s, v, w);
    StrictSubset(after, Edges(s), (v, w));
  }

  lemma StrictSubset(a: set<(TxId, TxId)>, b: set<(TxId, TxId)>, e: (TxId, TxId))
    requires a <= b && e in b && e !in a
    ensures |a| < |b|
  {
    SubsetSize(a, b - {e});
  }
}
