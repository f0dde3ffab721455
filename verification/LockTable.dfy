/** The lock table of the lock manager as a value, and the atomic steps that change it.
    A step is a whole method body, or one turn of the wait loop of `acquireLock`. */
module LockTable {

  type TxId = nat
  type Resource = string

  datatype Mode = S | X | IS | IX | SIX

  datatype Entry = Entry(mode: Mode, holder: TxId)

  datatype Status = Granted | Waiting | TimedOut | Deadlock

  /** `granted` lists the entries of each resource; `waiting` the resources each transaction waits for. */
  datatype LockState = LockState(granted: map<Resource, seq<Entry>>, waiting: map<TxId, seq<Resource>>)

  const Empty := LockState(map[], map[])

  /** The engine's own matrix: IX refuses IX, and SIX admits S. */
  predicate Compatible(existing: Mode, requested: Mode) {
    if existing == X || requested == X then false
    else if existing == SIX then requested == S || requested == IS
    else if requested == SIX then existing == S || existing == IS
    else if existing == IX then requested == IS
    else if requested == IX then existing == IS
    else true
  }

  /** What a mode lets its holder do to a resource: read or write part of it, or all of it. */
  datatype Right = ReadPart | ReadAll | WritePart | WriteAll

  function Rights(m: Mode): set<Right> {
    match m
    case IS => {ReadPart}
    case IX => {WritePart}
    case S => {ReadAll}
    case SIX => {ReadAll, WritePart}
    case X => {WriteAll}
  }

  predicate Collide(a: Right, b: Right) {
    a == WriteAll || b == WriteAll || (a == ReadAll && b == WritePart) || (a == WritePart && b == ReadAll)
  }

  /** Multi-granularity locking as usually defined: no right of one mode collides with one of the other. */
  predicate Textbook(a: Mode, b: Mode) {
    forall x, y :: x in Rights(a) && y in Rights(b) ==> !Collide(x, y)
  }

  /** The matrix is symmetric and is the usual one, save that it refuses IX with IX and admits S with SIX. */
  lemma MatrixAgainstTextbook(a: Mode, b: Mode)
    ensures Compatible(a, b) == Compatible(b, a)
    ensures Compatible(a, b) <==>
      (Textbook(a, b) && !(a == IX && b == IX)) || (a == S && b == SIX) || (a == SIX && b == S)
  {
    assert ReadAll in Rights(S) && ReadAll in Rights(SIX) && WritePart in Rights(SIX);
    assert WritePart in Rights(IX) && WriteAll in Rights(X) && ReadPart in Rights(IS);
  }

  predicate CanGrant(entries: seq<Entry>, requested: Mode) {
    forall i :: 0 <= i < |entries| ==> Compatible(entries[i].mode, requested)
  }

  function Entries(s: LockState, r: Resource): seq<Entry> {
    if r in s.granted then s.granted[r] else []
  }

  function WaitList(s: LockState, t: TxId): seq<Resource> {
    if t in s.waiting then s.waiting[t] else []
  }

  // ---------- Removal by predicate, order kept ----------

  function DropHolder(entries: seq<Entry>, t: TxId): seq<Entry> {
    if entries == [] then []
    else (if entries[0].holder == t then [] else [entries[0]]) + DropHolder(entries[1..], t)
  }

  function DropResource(rs: seq<Resource>, r: Resource): seq<Resource> {
    if rs == [] then []
    else (if rs[0] == r then [] else [rs[0]]) + DropResource(rs[1..], r)
  }

  lemma {:induction false} DropHolderMembers(entries: seq<Entry>, t: TxId)
    ensures forall e :: e in DropHolder(entries, t) <==> e in entries && e.holder != t
  {
    if entries != [] {
      DropHolderMembers(entries[1..], t);
      assert entries == [entries[0]] + entries[1..];
    }
  }

  lemma Regroup<T>(a: seq<T>, b: seq<T>, c: seq<T>)
    ensures a + (b + c) == a + b + c
  {}

  lemma DropHolderHead(e: Entry, rest: seq<Entry>, t: TxId)
    ensures DropHolder([e] + rest, t) == (if e.holder == t then [] else [e]) + DropHolder(rest, t)
  {
    assert ([e] + rest)[1..] == rest;
  }

  /** Removal keeps the order of what stays: it works piece by piece. */
  lemma {:induction false} DropHolderKeepsOrder(a: seq<Entry>, b: seq<Entry>, t: TxId)
    ensures DropHolder(a + b, t) == DropHolder(a, t) + DropHolder(b, t)
    decreases |a|, 1
  {
    if a == [] {
      assert a + b == b && DropHolder(a, t) == [];
    } else {
      HeadThenRest(a, b, t);
    }
  }

  lemma HeadThenRest(a: seq<Entry>, b: seq<Entry>, t: TxId)
    requires a != []
    ensures DropHolder(a + b, t) == DropHolder(a, t) + DropHolder(b, t)
    decreases |a|, 0
  {
    hide DropHolder;
    var rest := a[1..];
    assert a == [a[0]] + rest && a + b == [a[0]] + (rest + b);
    DropHolderHead(a[0], rest, t);
    DropHolderHead(a[0], rest + b, t);
    DropHolderKeepsOrder(rest, b, t);
    Regroup(if a[0].holder == t then [] else [a[0]], DropHolder(rest, t), DropHolder(b, t));
  }

  /** Position of the first entry held by `t`, or the length when there is none. */
  function FirstHeld(entries: seq<Entry>, t: TxId): (i: nat)
    ensures i <= |entries|
    ensures i < |entries| ==> entries[i].holder == t
    ensures forall k :: 0 <= k < i ==> entries[k].holder != t
  {
    if entries == [] || entries[0].holder == t then 0 else 1 + FirstHeld(entries[1..], t)
  }

  // ---------- Steps ----------

  function AddEntry(s: LockState, t: TxId, r: Resource, m: Mode): LockState {
    s.(granted := s.granted[r := Entries(s, r) + [Entry(m, t)]])
  }

  function StopWaiting(s: LockState, t: TxId, r: Resource): LockState {
    var rest := DropResource(WaitList(s, t), r);
    s.(waiting := if rest == [] then s.waiting - {t} else s.waiting[t := rest])
  }

  /** The part of `acquireLock` before its wait loop. */
  function Request(s: LockState, t: TxId, r: Resource, m: Mode): (LockState, Status) {
    if CanGrant(Entries(s, r), m) then (AddEntry(s, t, r, m), Granted)
    else (s.(waiting := s.waiting[t := WaitList(s, t) + [r]]), Waiting)
  }

  /** The grant attempt at the end of a turn of the wait loop. */
  function Retry(s: LockState, t: TxId, r: Resource, m: Mode): (LockState, Status) {
    if CanGrant(Entries(s, r), m) then (AddEntry(StopWaiting(s, t, r), t, r, m), Granted)
    else (s, Waiting)
  }

  function Release(s: LockState, t: TxId, r: Resource): LockState {
    if r !in s.granted then s
    else
      var rest := DropHolder(s.granted[r], t);
      s.(granted := if rest == [] then s.granted - {r} else s.granted[r := rest])
  }

  function ReleaseAll(s: LockState, t: TxId): LockState {
    LockState(
      map r | r in s.granted && DropHolder(s.granted[r], t) != [] :: DropHolder(s.granted[r], t),
      s.waiting - {t})
  }

  /** Only the first entry of `t` is replaced. Looking up an absent resource leaves an empty list behind. */
  function Upgrade(s: LockState, t: TxId, r: Resource, m: Mode): (LockState, Status) {
    var entries := Entries(s, r);
    var i := FirstHeld(entries, t);
    if i == |entries| then (s.(granted := s.granted[r := entries]), TimedOut)
    else
      var others := entries[..i] + entries[i + 1..];
      if CanGrant(others, m) then (s.(granted := s.granted[r := others + [Entry(m, t)]]), Granted)
      else (s.(granted := s.granted[r := others + [entries[i]]]), Waiting)
  }

  datatype Action =
    | DoRequest(tx: TxId, resource: Resource, mode: Mode)
    | DoRetry(tx: TxId, resource: Resource, mode: Mode)
    | DoGiveUp(tx: TxId, resource: Resource)
    | DoRelease(tx: TxId, resource: Resource)
    | DoReleaseAll(tx: TxId)
    | DoUpgrade(tx: TxId, resource: Resource, mode: Mode)

  function Step(s: LockState, a: Action): LockState {
    match a
    case DoRequest(t, r, m) => Request(s, t, r, m).0
    case DoRetry(t, r, m) => Retry(s, t, r, m).0
    case DoGiveUp(t, r) => StopWaiting(s, t, r)
    case DoRelease(t, r) => Release(s, t, r)
    case DoReleaseAll(t) => ReleaseAll(s, t)
    case DoUpgrade(t, r, m) => Upgrade(s, t, r, m).0
  }

  /** The lock table after the first `k` actions of a run that starts with no locks. */
  function StateAt(run: seq<Action>, k: nat): LockState
    requires k <= |run|
  {
    if k == 0 then Empty else Step(StateAt(run, k - 1), run[k - 1])
  }

  // ---------- The table invariant ----------

  ghost predicate PairwiseCompatible(entries: seq<Entry>) {
    forall i, j :: 0 <= i < |entries| && 0 <= j < |entries| && i != j ==>
      Compatible(entries[i].mode, entries[j].mode)
  }

  ghost predicate Consistent(s: LockState) {
    forall r :: r in s.granted ==> PairwiseCompatible(s.granted[r])
  }

  predicate Writer(m: Mode) {
    m == X || m == IX || m == SIX
  }

  lemma {:induction false} DropKeepsPairwise(entries: seq<Entry>, t: TxId)
    requires PairwiseCompatible(entries)
    ensures PairwiseCompatible(DropHolder(entries, t))
  {
    if entries != [] {
      var tail := entries[1..];
      assert PairwiseCompatible(tail);
      DropKeepsPairwise(tail, t);
      DropHolderMembers(tail, t);
      var kept := DropHolder(tail, t);
      forall j | 0 <= j < |kept|
        ensures Compatible(entries[0].mode, kept[j].mode) && Compatible(kept[j].mode, entries[0].mode)
      {
        assert kept[j] in tail;
      }
    }
  }

  lemma EmptyIsPairwise()
    ensures PairwiseCompatible([])
  {}

  lemma GrantKeepsPairwise(entries: seq<Entry>, e: Entry)
    requires PairwiseCompatible(entries) && CanGrant(entries, e.mode)
    ensures PairwiseCompatible(entries + [e])
  {}

  lemma MoveLastKeepsPairwise(entries: seq<Entry>, i: nat)
    requires PairwiseCompatible(entries) && i < |entries|
    ensures PairwiseCompatible(entries[..i] + entries[i + 1..])
    ensures CanGrant(entries[..i] + entries[i + 1..], entries[i].mode)
  {
    var others := entries[..i] + entries[i + 1..];
    assert forall k :: 0 <= k < |others| ==> others[k] == entries[if k < i then k else k + 1];
  }

  lemma UpgradeKeepsPairwise(s: LockState, t: TxId, r: Resource, m: Mode)
    requires Consistent(s)
    ensures PairwiseCompatible(Entries(Upgrade(s, t, r, m).0, r))
  {
    hide PairwiseCompatible, CanGrant, FirstHeld;
    var entries := Entries(s, r);
    var i := FirstHeld(entries, t);
    if i < |entries| {
      var others := entries[..i] + entries[i + 1..];
      MoveLastKeepsPairwise(entries, i);
      GrantKeepsPairwise(others, entries[i]);
      if CanGrant(others, m) {
        GrantKeepsPairwise(others, Entry(m, t));
      }
    } else {
      EmptyIsPairwise();
    }
  }

  lemma StepKeepsConsistent(s: LockState, a: Action)
    requires Consistent(s)
    ensures Consistent(Step(s, a))
  {
    hide PairwiseCompatible, CanGrant, FirstHeld, DropHolder;
    forall r | r in Step(s, a).granted
      ensures PairwiseCompatible(Step(s, a).granted[r])
    {
      EmptyIsPairwise();
      if a.DoRelease? || a.DoReleaseAll? {
        if r in s.granted {
          DropKeepsPairwise(s.granted[r], a.tx);
        }
      } else if a.DoUpgrade? {
        UpgradeKeepsPairwise(s, a.tx, a.resource, a.mode);
      } else if a.DoRequest? || a.DoRetry? {
        if CanGrant(Entries(s, a.resource), a.mode) {
          GrantKeepsPairwise(Entries(s, a.resource), Entry(a.mode, a.tx));
        }
      }
    }
  }

  lemma PairwiseMeans(entries: seq<Entry>)
    requires PairwiseCompatible(entries)
    ensures forall i :: 0 <= i < |entries| && entries[i].mode == X ==> |entries| == 1
    ensures forall i, j :: 0 <= i < j < |entries| ==> !(Writer(entries[i].mode) && Writer(entries[j].mode))
  {
    forall i | 0 <= i < |entries| && |entries| > 1
      ensures entries[i].mode != X
    {
      var other := if i == 0 then 1 else 0;
      assert Compatible(entries[i].mode, entries[other].mode);
    }
  }

  /** Lock-table safety, in every run of the lock manager: the entries of a resource are
      pairwise compatible both ways, an X entry is alone, and at most one entry is X, IX or SIX. */
  lemma {:induction false} LockTableSafety(run: seq<Action>, k: nat, r: Resource)
    requires k <= |run|
    ensures Consistent(StateAt(run, k))
    ensures
      var entries := Entries(StateAt(run, k), r);
      && PairwiseCompatible(entries)
      && (forall i :: 0 <= i < |entries| && entries[i].mode == X ==> |entries| == 1)
      && (forall i, j :: 0 <= i < j < |entries| ==> !(Writer(entries[i].mode) && Writer(entries[j].mode)))
  {
    hide PairwiseCompatible, Step, Writer;
    if k > 0 {
      LockTableSafety(run, k - 1, r);
      StepKeepsConsistent(StateAt(run, k - 1), run[k - 1]);
    }
    EmptyIsPairwise();
    PairwiseMeans(Entries(StateAt(run, k), r));
  }

  /** A refused upgrade keeps the holders and modes of every resource. */
  lemma RefusedUpgradeKeepsEntries(s: LockState, t: TxId, r: Resource, m: Mode)
    requires Upgrade(s, t, r, m).1 != Granted
    ensures forall q :: multiset(Entries(Upgrade(s, t, r, m).0, q)) == multiset(Entries(s, q))
    ensures Upgrade(s, t, r, m).0.waiting == s.waiting
  {
    hide Upgrade, Entries;
    UpgradeElsewhere(s, t, r, m);
    RefusedUpgradeRotates(s, t, r, m);
  }

  lemma UpgradeElsewhere(s: LockState, t: TxId, r: Resource, m: Mode)
    ensures forall q :: q != r ==> Entries(Upgrade(s, t, r, m).0, q) == Entries(s, q)
    ensures Upgrade(s, t, r, m).0.waiting == s.waiting
  {
    hide CanGrant, FirstHeld;
  }

  lemma RefusedUpgradeList(s: LockState, t: TxId, r: Resource, m: Mode)
    requires Upgrade(s, t, r, m).1 != Granted
    ensures
      var entries := Entries(s, r);
      var i := FirstHeld(entries, t);
      Entries(Upgrade(s, t, r, m).0, r) ==
        if i == |entries| then entries else entries[..i] + entries[i + 1..] + [entries[i]]
  {
    hide CanGrant, FirstHeld;
  }

  lemma RefusedUpgradeRotates(s: LockState, t: TxId, r: Resource, m: Mode)
    requires Upgrade(s, t, r, m).1 != Granted
    ensures multiset(Entries(Upgrade(s, t, r, m).0, r)) == multiset(Entries(s, r))
  {
    hide Upgrade, Entries, FirstHeld;
    RefusedUpgradeList(s, t, r, m);
    var entries := Entries(s, r);
    var i := FirstHeld(entries, t);
    if i < |entries| {
      RotationKeepsEntries(entries, i);
    }
  }

  lemma RotationKeepsEntries(entries: seq<Entry>, i: nat)
    requires i < |entries|
    ensures multiset(entries[..i] + entries[i + 1..] + [entries[i]]) == multiset(entries)
  {
    assert entries == entries[..i] + [entries[i]] + entries[i + 1..];
  }

  /** Position `i` is the first that `t` holds, and every other entry admits mode `m`. */
  ghost predicate AdmitsBeside(entries: seq<Entry>, t: TxId, m: Mode, i: int) {
    && 0 <= i < |entries| && entries[i].holder == t
    && (forall k :: 0 <= k < i ==> entries[k].holder != t)
    && (forall k :: 0 <= k < |entries| && k != i ==> Compatible(entries[k].mode, m))
  }

  lemma CanGrantBeside(entries: seq<Entry>, i: nat, m: Mode)
    requires i < |entries|
    ensures CanGrant(entries[..i] + entries[i + 1..], m) <==>
      forall k :: 0 <= k < |entries| && k != i ==> Compatible(entries[k].mode, m)
  {
    hide Compatible;
    var others := entries[..i] + entries[i + 1..];
    assert forall k :: 0 <= k < |others| ==> others[k] == entries[if k < i then k else k + 1];
    if CanGrant(others, m) {
      forall k | 0 <= k < |entries| && k != i
        ensures Compatible(entries[k].mode, m)
      {
        assert others[if k < i then k else k - 1] == entries[k];
      }
    }
  }

  /** When an upgrade succeeds, beside whatever other entries: it times out exactly when the
      transaction holds nothing on the resource, and is granted exactly when, its first entry aside,
      every entry of the resource admits the new mode. */
  lemma UpgradeOutcome(s: LockState, t: TxId, r: Resource, m: Mode)
    ensures Upgrade(s, t, r, m).1 == TimedOut <==> forall e :: e in Entries(s, r) ==> e.holder != t
    ensures Upgrade(s, t, r, m).1 == Granted <==> exists i :: AdmitsBeside(Entries(s, r), t, m, i)
    ensures Upgrade(s, t, r, m).1 == Granted || Upgrade(s, t, r, m).1 == Waiting || Upgrade(s, t, r, m).1 == TimedOut
  {
    hide CanGrant, Compatible;
    var entries := Entries(s, r);
    var i := FirstHeld(entries, t);
    if i < |entries| {
      assert entries[i] in entries;
      CanGrantBeside(entries, i, m);
      assert Upgrade(s, t, r, m).1 == Granted ==> AdmitsBeside(entries, t, m, i);
      assert forall j :: AdmitsBeside(entries, t, m, j) ==> j == i;
    }
  }

  /** For a transaction with one entry on the resource: granted exactly when every entry of another
      transaction admits the new mode, whatever it held before. */
  lemma SoleEntryUpgrade(s: LockState, t: TxId, r: Resource, m: Mode, own: nat)
    requires own < |Entries(s, r)| && Entries(s, r)[own].holder == t
    requires forall k :: 0 <= k < |Entries(s, r)| && Entries(s, r)[k].holder == t ==> k == own
    ensures Upgrade(s, t, r, m).1 == Granted <==>
      forall e :: e in Entries(s, r) && e.holder != t ==> Compatible(e.mode, m)
    ensures Upgrade(s, t, r, m).1 != TimedOut
  {
    hide Compatible, Upgrade;
    UpgradeOutcome(s, t, r, m);
    var entries := Entries(s, r);
    assert entries[own] in entries;
    if forall e :: e in entries && e.holder != t ==> Compatible(e.mode, m) {
      assert AdmitsBeside(entries, t, m, own);
    }
    if i :| AdmitsBeside(entries, t, m, i) {
      forall e | e in entries && e.holder != t
        ensures Compatible(e.mode, m)
      {
        var k :| 0 <= k < |entries| && entries[k] == e;
      }
    }
  }

  /** A request, and a turn of the wait loop, are granted exactly when every entry of the resource
      admits the mode, and then the entry is the last of the resource. */
  lemma GrantOutcome(s: LockState, t: TxId, r: Resource, m: Mode)
    ensures Request(s, t, r, m).1 == Granted <==> forall e :: e in Entries(s, r) ==> Compatible(e.mode, m)
    ensures Retry(s, t, r, m).1 == Granted <==> forall e :: e in Entries(s, r) ==> Compatible(e.mode, m)
    ensures Request(s, t, r, m).1 == Granted ==> Entries(Request(s, t, r, m).0, r) == Entries(s, r) + [Entry(m, t)]
    ensures Retry(s, t, r, m).1 == Granted ==> Entries(Retry(s, t, r, m).0, r) == Entries(s, r) + [Entry(m, t)]
    ensures Request(s, t, r, m).1 != Granted ==> Request(s, t, r, m) == (s.(waiting := s.waiting[t := WaitList(s, t) + [r]]), Waiting)
    ensures Retry(s, t, r, m).1 != Granted ==> Retry(s, t, r, m) == (s, Waiting)
  {
    hide Compatible, DropResource;
    var entries := Entries(s, r);
    if CanGrant(entries, m) {
      forall e | e in entries
        ensures Compatible(e.mode, m)
      {
        var k :| 0 <= k < |entries| && entries[k] == e;
      }
    } else {
      var k :| 0 <= k < |entries| && !Compatible(entries[k].mode, m);
      assert entries[k] in entries;
    }
  }

  /** A granted upgrade trades the first entry of `t` for the new mode and changes nothing else. */
  lemma GrantedUpgradeTradesOneEntry(s: LockState, t: TxId, r: Resource, m: Mode)
    requires Upgrade(s, t, r, m).1 == Granted
    ensures
      var entries, after := Entries(s, r), Entries(Upgrade(s, t, r, m).0, r);
      exists traded :: traded in entries && traded.holder == t
        && multiset(after) + multiset{traded} == multiset(entries) + multiset{Entry(m, t)}
    ensures forall q :: q != r ==> Entries(Upgrade(s, t, r, m).0, q) == Entries(s, q)
  {
    hide CanGrant, FirstHeld;
    var entries := Entries(s, r);
    var i := FirstHeld(entries, t);
    assert entries == entries[..i] + [entries[i]] + entries[i + 1..];
    assert entries[i] in entries;
  }
}
