/** Strict two-phase locking over whole runs of the lock manager. */
module TwoPhase {
  import opened LockTable

  /** Action `i` of the run hands transaction `t` mode `m` on resource `r`. */
  ghost predicate Grants(run: seq<Action>, i: nat, t: TxId, r: Resource, m: Mode) {
    && i < |run|
    && match run[i]
       case DoRequest(tx, rs, md) => tx == t && rs == r && md == m && Request(StateAt(run, i), t, r, m).1 == Granted
       case DoRetry(tx, rs, md) => tx == t && rs == r && md == m && Retry(StateAt(run, i), t, r, m).1 == Granted
       case DoUpgrade(tx, rs, md) => tx == t && rs == r && md == m && Upgrade(StateAt(run, i), t, r, m).1 == Granted
       case _ => false
  }

  ghost predicate ReleasesAll(run: seq<Action>, k: nat, t: TxId) {
    k < |run| && run[k] == DoReleaseAll(t)
  }

  /** Whatever `weaker` keeps out, `stronger` keeps out too. */
  ghost predicate Covers(stronger: Mode, weaker: Mode) {
    forall other :: Compatible(stronger, other) ==> Compatible(weaker, other)
  }

  /** A single lock is never given back, and an upgrade never weakens the entry it replaces. */
  ghost predicate KeepsLocks(s: LockState, a: Action) {
    match a
    case DoRelease(_, _) => false
    case DoUpgrade(t, r, m) =>
      var entries := Entries(s, r);
      var i := FirstHeld(entries, t);
      i < |entries| && Upgrade(s, t, r, m).1 == Granted ==> Covers(m, entries[i].mode)
    case _ => true
  }

  ghost predicate LocksLeaveTogether(run: seq<Action>) {
    forall i :: 0 <= i < |run| ==> KeepsLocks(StateAt(run, i), run[i])
  }

  ghost predicate NoGrantAfterRelease(run: seq<Action>) {
    forall t, k, i, r, m :: ReleasesAll(run, k, t) && Grants(run, i, t, r, m) ==> i < k
  }

  /** Strict two-phase discipline: locks leave only through ReleaseAll, and no transaction
      is granted anything after its own ReleaseAll. */
  ghost predicate StrictTwoPhase(run: seq<Action>) {
    LocksLeaveTogether(run) && NoGrantAfterRelease(run)
  }

  ghost predicate HoldsCovering(s: LockState, t: TxId, r: Resource, m: Mode) {
    exists e :: e in Entries(s, r) && e.holder == t && Covers(e.mode, m)
  }

  lemma UpgradeKeepsCover(s: LockState, u: TxId, r: Resource, n: Mode, t: TxId, m: Mode, e: Entry)
    requires e in Entries(s, r) && e.holder == t && Covers(e.mode, m)
    requires KeepsLocks(s, DoUpgrade(u, r, n))
    ensures HoldsCovering(Upgrade(s, u, r, n).0, t, r, m)
  {
    hide Compatible, FirstHeld, CanGrant;
    var entries := Entries(s, r);
    var after := Entries(Upgrade(s, u, r, n).0, r);
    var i := FirstHeld(entries, u);
    if i < |entries| {
      var p :| 0 <= p < |entries| && entries[p] == e;
      if p == i {
        var last := after[|after| - 1];
        assert last in after && last.holder == t && Covers(last.mode, m);
      } else {
        assert after[if p < i then p else p - 1] == e;
      }
    }
  }

  lemma StepKeepsCover(s: LockState, a: Action, t: TxId, r: Resource, m: Mode)
    requires HoldsCovering(s, t, r, m)
    requires KeepsLocks(s, a) && a != DoReleaseAll(t)
    ensures HoldsCovering(Step(s, a), t, r, m)
  {
    hide Compatible, FirstHeld, CanGrant, Covers, DropHolder, DropResource;
    var e :| e in Entries(s, r) && e.holder == t && Covers(e.mode, m);
    if a.DoUpgrade? && a.resource == r {
      UpgradeKeepsCover(s, a.tx, r, a.mode, t, m, e);
    } else {
      if a.DoReleaseAll? {
        DropHolderMembers(s.granted[r], a.tx);
      }
      assert e in Entries(Step(s, a), r);
    }
  }

  lemma GrantIsHeld(run: seq<Action>, i: nat, t: TxId, r: Resource, m: Mode)
    requires Grants(run, i, t, r, m)
    ensures HoldsCovering(StateAt(run, i + 1), t, r, m)
  {
    hide FirstHeld, CanGrant, DropResource;
    var after := Entries(Step(StateAt(run, i), run[i]), r);
    assert after[|after| - 1] == Entry(m, t);
  }

  lemma CoverSurvivesAction(run: seq<Action>, k: nat, t: TxId, r: Resource, m: Mode)
    requires k < |run| && LocksLeaveTogether(run)
    requires HoldsCovering(StateAt(run, k), t, r, m) && !ReleasesAll(run, k, t)
    ensures HoldsCovering(StateAt(run, k + 1), t, r, m)
  {
    assert KeepsLocks(StateAt(run, k), run[k]);
    StepKeepsCover(StateAt(run, k), run[k], t, r, m);
  }

  /** A mode in force stays in force until its transaction releases everything. */
  lemma {:induction false} HeldUntilRelease(run: seq<Action>, i: nat, j: nat, t: TxId, r: Resource, m: Mode)
    requires LocksLeaveTogether(run) && i <= j <= |run|
    requires HoldsCovering(StateAt(run, i), t, r, m)
    requires forall k :: i <= k < j ==> !ReleasesAll(run, k, t)
    ensures HoldsCovering(StateAt(run, j), t, r, m)
    decreases j - i
  {
    hide *;
    if i < j {
      CoverSurvivesAction(run, i, t, r, m);
      HeldUntilRelease(run, i + 1, j, t, r, m);
    }
  }

  /** The grant at `i` to `t` and the later grant at `j` to another transaction `u` clash. */
  ghost predicate Clash(run: seq<Action>, i: nat, j: nat, t: TxId, u: TxId, r: Resource, m: Mode, n: Mode) {
    i < j < |run| && t != u && Grants(run, i, t, r, m) && Grants(run, j, u, r, n) && !Compatible(m, n)
  }

  /** A grant is compatible with every entry other transactions hold on the resource. */
  lemma GrantRespectsOthers(run: seq<Action>, j: nat, u: TxId, r: Resource, n: Mode, e: Entry)
    requires Grants(run, j, u, r, n)
    requires e in Entries(StateAt(run, j), r) && e.holder != u
    ensures Compatible(e.mode, n)
  {
    hide StateAt, Compatible, FirstHeld;
    var entries := Entries(StateAt(run, j), r);
    var p :| 0 <= p < |entries| && entries[p] == e;
    if run[j].DoUpgrade? {
      var i := FirstHeld(entries, u);
      var others := entries[..i] + entries[i + 1..];
      assert others[if p < i then p else p - 1] == e;
    }
  }

  /** Between two clashing grants the earlier transaction released everything. */
  lemma ClashIsSeparatedByRelease(run: seq<Action>, i: nat, j: nat, t: TxId, u: TxId, r: Resource, m: Mode, n: Mode)
    requires StrictTwoPhase(run) && Clash(run, i, j, t, u, r, m, n)
    ensures exists k :: i < k < j && ReleasesAll(run, k, t)
  {
    hide StateAt, Grants, Entries, KeepsLocks;
    if forall k :: i < k < j ==> !ReleasesAll(run, k, t) {
      GrantIsHeld(run, i, t, r, m);
      HeldUntilRelease(run, i + 1, j, t, r, m);
      var e :| e in Entries(StateAt(run, j), r) && e.holder == t && Covers(e.mode, m);
      GrantRespectsOthers(run, j, u, r, n, e);
      assert false;
    }
  }

  // ---------- Serialisability ----------

  ghost predicate ConflictEdge(run: seq<Action>, t: TxId, u: TxId) {
    exists i, j, r, m, n :: Clash(run, i, j, t, u, r, m, n)
  }

  /** First ReleaseAll of `t` at or after position `k`, or none. */
  ghost function ReleasePoint(run: seq<Action>, t: TxId, k: nat): (p: nat)
    requires k <= |run|
    ensures k <= p <= |run|
    ensures p < |run| ==> ReleasesAll(run, p, t)
    ensures forall q :: k <= q < p ==> !ReleasesAll(run, q, t)
    decreases |run| - k
  {
    if k == |run| || ReleasesAll(run, k, t) then k else ReleasePoint(run, t, k + 1)
  }

  /** Place of `t` in the serial order: its release point, the never released ones last. */
  ghost function Rank(run: seq<Action>, t: TxId): nat {
    var p := ReleasePoint(run, t, 0);
    if p < |run| then p else |run| + t
  }

  lemma RankIsInjective(run: seq<Action>, t: TxId, u: TxId)
    requires Rank(run, t) == Rank(run, u)
    ensures t == u
  {}

  /** Release order is a serial order: every pair of clashing grants, over the whole run,
      happens in that order, the earlier transaction being released before the later grant. */
  lemma ReleaseOrderSerialises(run: seq<Action>, i: nat, j: nat, t: TxId, u: TxId, r: Resource, m: Mode, n: Mode)
    requires StrictTwoPhase(run) && Clash(run, i, j, t, u, r, m, n)
    ensures i < Rank(run, t) < j < Rank(run, u)
  {
    hide StateAt, LocksLeaveTogether;
    ClashIsSeparatedByRelease(run, i, j, t, u, r, m, n);
    var k :| i < k < j && ReleasesAll(run, k, t);
    var p, q := ReleasePoint(run, t, 0), ReleasePoint(run, u, 0);
    assert ReleasesAll(run, p, t) && Grants(run, i, t, r, m);
    assert q < |run| ==> ReleasesAll(run, q, u) && Grants(run, j, u, r, n);
  }

  ghost predicate ConflictPath(run: seq<Action>, path: seq<TxId>) {
    |path| >= 2 && forall x :: 0 <= x < |path| - 1 ==> ConflictEdge(run, path[x], path[x + 1])
  }

  lemma ConflictEdgeAscends(run: seq<Action>, t: TxId, u: TxId)
    requires StrictTwoPhase(run) && ConflictEdge(run, t, u)
    ensures Rank(run, t) < Rank(run, u)
  {
    hide Clash, Rank, StrictTwoPhase;
    var i, j, r, m, n :| Clash(run, i, j, t, u, r, m, n);
    ReleaseOrderSerialises(run, i, j, t, u, r, m, n);
  }

  lemma {:induction false} RanksAscend(run: seq<Action>, path: seq<TxId>, last: nat)
    requires 0 < last < |path|
    requires forall x :: 0 <= x < |path| - 1 ==> Rank(run, path[x]) < Rank(run, path[x + 1])
    ensures Rank(run, path[0]) < Rank(run, path[last])
  {
    if last > 1 {
      RanksAscend(run, path, last - 1);
    }
    assert Rank(run, path[last - 1]) < Rank(run, path[last - 1 + 1]);
  }

  /** Strict two-phase locking serialises: the conflict relation of a run has no cycle. */
  lemma ConflictsAreAcyclic(run: seq<Action>, path: seq<TxId>)
    requires StrictTwoPhase(run) && ConflictPath(run, path)
    ensures path[0] != path[|path| - 1]
  {
    forall x | 0 <= x < |path| - 1
      ensures Rank(run, path[x]) < Rank(run, path[x + 1])
    {
      ConflictEdgeAscends(run, path[x], path[x + 1]);
    }
    RanksAscend(run, path, |path| - 1);
  }
}
