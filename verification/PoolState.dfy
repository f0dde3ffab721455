/** The buffer pool as a value: frames over a disk, the recency list, and the steps that change them. */
module PoolState {
  import opened Common

  type PageId = nat
  type Contents = seq<nat>

  const INVALID_PAGE_ID: PageId := 0xFFFF_FFFF_FFFF_FFFF
  const MAX_POOL_SIZE: nat := 1048576

  datatype FetchMode = Read | Write | Pin | Unpinned

  datatype Strategy = LRU | CLOCK | FIFO

  datatype Frame = Frame(contents: Contents, pins: nat, dirty: bool, lastAccess: nat)

  /** `recent` is the list of resident pages, most recently used first; `now` is the access clock. */
  datatype Pool = Pool(
    frames: map<PageId, Frame>, recent: seq<PageId>, disk: map<PageId, Contents>,
    size: nat, nextPage: PageId, now: nat)

  predicate Pinned(s: Pool, p: PageId) {
    p in s.frames && s.frames[p].pins > 0
  }

  function Without(list: seq<PageId>, p: PageId): seq<PageId> {
    if list == [] then []
    else (if list[0] == p then [] else [list[0]]) + Without(list[1..], p)
  }

  // ---------- Steps ----------

  function OpenFrame(contents: Contents, mode: FetchMode, now: nat): Frame {
    Frame(contents, if mode == Pin then 1 else 0, mode == Write, now)
  }

  function Touch(s: Pool, p: PageId, mode: FetchMode): Pool
    requires p in s.frames
  {
    var f := s.frames[p];
    s.(frames := s.frames[p := Frame(f.contents, if mode == Pin then f.pins + 1 else f.pins,
                                     f.dirty || mode == Write, s.now)],
       recent := [p] + Without(s.recent, p), now := s.now + 1)
  }

  function AddFrame(s: Pool, p: PageId, f: Frame): Pool {
    s.(frames := s.frames[p := f], recent := [p] + s.recent, now := s.now + 1)
  }

  function Load(s: Pool, p: PageId, mode: FetchMode): Pool
    requires p in s.disk
  {
    AddFrame(s, p, OpenFrame(s.disk[p], mode, s.now))
  }

  function Create(s: Pool, contents: Contents): Pool {
    AddFrame(s.(nextPage := s.nextPage + 1), s.nextPage, Frame(contents, 0, true, s.now))
  }

  /** Eviction and `discardPage`: a dirty page is written back, then forgotten. */
  function Drop(s: Pool, p: PageId): Pool
    requires p in s.frames
  {
    s.(disk := if s.frames[p].dirty then s.disk[p := s.frames[p].contents] else s.disk,
       frames := s.frames - {p}, recent := Without(s.recent, p))
  }

  function Unpin(s: Pool, p: PageId, dirty: bool): Pool {
    if p !in s.frames then s
    else
      var f := s.frames[p];
      s.(frames := s.frames[p := f.(pins := if f.pins > 0 then f.pins - 1 else 0, dirty := f.dirty || dirty)])
  }

  function Flush(s: Pool, p: PageId): Pool {
    if p !in s.frames || !s.frames[p].dirty then s
    else s.(disk := s.disk[p := s.frames[p].contents], frames := s.frames[p := s.frames[p].(dirty := false)])
  }

  function FlushAll(s: Pool): Pool {
    s.(disk := s.disk + (map p | p in s.frames && s.frames[p].dirty :: s.frames[p].contents),
       frames := map p | p in s.frames :: s.frames[p].(dirty := false))
  }

  function Clear(s: Pool): Pool {
    s.(frames := map[], recent := [])
  }

  /** A client changes a resident page through the pointer it was given. */
  function Store(s: Pool, p: PageId, contents: Contents): Pool
    requires p in s.frames
  {
    s.(frames := s.frames[p := s.frames[p].(contents := contents)])
  }

  // ---------- What the pool stands for ----------

  /** Visible contents of a page: its frame if resident, else the disk. */
  ghost function View(s: Pool, p: PageId): Option<Contents> {
    if p in s.frames then Some(s.frames[p].contents) else OnDisk(s, p)
  }

  ghost function OnDisk(s: Pool, p: PageId): Option<Contents> {
    if p in s.disk then Some(s.disk[p]) else None
  }

  ghost predicate SameView(s: Pool, t: Pool) {
    forall p :: View(s, p) == View(t, p)
  }

  ghost predicate CleanFramesMatchDisk(s: Pool) {
    forall p :: p in s.frames && !s.frames[p].dirty ==> p in s.disk && s.disk[p] == s.frames[p].contents
  }

  /** The recency list holds the resident pages, once each, in order of last access. */
  ghost predicate RecencyExact(s: Pool) {
    && (forall p :: p in s.recent <==> p in s.frames)
    && (forall i, j :: 0 <= i < j < |s.recent| ==> s.frames[s.recent[i]].lastAccess > s.frames[s.recent[j]].lastAccess)
    && (forall p :: p in s.frames ==> s.frames[p].lastAccess < s.now)
  }

  ghost predicate PagesKnown(s: Pool) {
    && (forall p :: p in s.frames || p in s.disk ==> p < s.nextPage)
    && s.nextPage <= INVALID_PAGE_ID
  }

  /** What every operation keeps, whatever clients do to the pages they were given. */
  ghost predicate Shaped(s: Pool) {
    RecencyExact(s) && PagesKnown(s) && |s.frames| <= s.size <= MAX_POOL_SIZE
  }

  /** A shaped pool in which no change is outstanding that the dirty marks do not tell of. */
  ghost predicate Valid(s: Pool) {
    Shaped(s) && CleanFramesMatchDisk(s)
  }

  /** The frame of `p` was changed, but is not marked: the disk has other contents. */
  ghost predicate Unmarked(s: Pool, p: PageId) {
    p in s.frames && !s.frames[p].dirty && OnDisk(s, p) != Some(s.frames[p].contents)
  }

  lemma {:induction false} WithoutMembers(list: seq<PageId>, p: PageId)
    ensures forall q :: q in Without(list, p) <==> q in list && q != p
  {
    if list != [] {
      WithoutMembers(list[1..], p);
      assert list == [list[0]] + list[1..];
    }
  }

  /** A list in descending order of `rank`. */
  ghost predicate Descending(list: seq<PageId>, rank: map<PageId, Frame>) {
    && (forall i :: 0 <= i < |list| ==> list[i] in rank)
    && (forall i, j :: 0 <= i < j < |list| ==> rank[list[i]].lastAccess > rank[list[j]].lastAccess)
  }

  lemma {:induction false} WithoutDescends(list: seq<PageId>, p: PageId, rank: map<PageId, Frame>)
    requires Descending(list, rank)
    ensures Descending(Without(list, p), rank)
  {
    if list != [] {
      var tail := list[1..];
      assert Descending(tail, rank) by {
        assert forall i :: 0 <= i < |tail| ==> tail[i] == list[i + 1];
      }
      WithoutDescends(tail, p, rank);
      WithoutMembers(tail, p);
      var kept := Without(tail, p);
      forall j | 0 <= j < |kept|
        ensures kept[j] in rank && rank[list[0]].lastAccess > rank[kept[j]].lastAccess
      {
        assert kept[j] in tail;
        var k :| 0 <= k < |tail| && tail[k] == kept[j];
        assert tail[k] == list[k + 1];
      }
    }
  }

  /** Frames that keep their access times keep the order. */
  lemma DescendingFrame(list: seq<PageId>, before: map<PageId, Frame>, after: map<PageId, Frame>)
    requires Descending(list, before)
    requires forall p :: p in list ==> p in after && after[p].lastAccess == before[p].lastAccess
    ensures Descending(list, after)
  {
    assert forall i :: 0 <= i < |list| ==> list[i] in list;
  }

  lemma RecencyDescends(s: Pool)
    requires RecencyExact(s)
    ensures Descending(s.recent, s.frames)
  {
    assert forall i :: 0 <= i < |s.recent| ==> s.recent[i] in s.recent;
  }

  /** Moving or adding `p` to the front, with the newest access time, keeps the list exact. */
  lemma FrontKeepsRecency(s: Pool, p: PageId, f: Frame)
    requires RecencyExact(s) && f.lastAccess == s.now
    ensures RecencyExact(s.(frames := s.frames[p := f], recent := [p] + Without(s.recent, p), now := s.now + 1))
  {
    hide Without;
    RecencyDescends(s);
    WithoutMembers(s.recent, p);
    WithoutDescends(s.recent, p, s.frames);
    var rest := Without(s.recent, p);
    var after := s.frames[p := f];
    DescendingFrame(rest, s.frames, after);
    forall i | 0 <= i < |rest|
      ensures after[rest[i]].lastAccess < s.now
    {
      assert rest[i] in rest;
    }
  }

  lemma {:induction false} WithoutAbsent(list: seq<PageId>, p: PageId)
    requires p !in list
    ensures Without(list, p) == list
  {
    if list != [] {
      WithoutAbsent(list[1..], p);
    }
  }

  lemma AddKeepsRecency(s: Pool, p: PageId, f: Frame)
    requires RecencyExact(s) && p !in s.frames && f.lastAccess == s.now
    ensures RecencyExact(s.(frames := s.frames[p := f], recent := [p] + s.recent, now := s.now + 1))
  {
    WithoutAbsent(s.recent, p);
    FrontKeepsRecency(s, p, f);
  }

  lemma DropKeepsRecency(s: Pool, p: PageId)
    requires RecencyExact(s) && p in s.frames
    ensures RecencyExact(Drop(s, p))
  {
    hide Without;
    RecencyDescends(s);
    WithoutMembers(s.recent, p);
    WithoutDescends(s.recent, p, s.frames);
    DescendingFrame(Drop(s, p).recent, s.frames, Drop(s, p).frames);
  }

  /** A change of frames that keeps the pages and their access times keeps the recency list exact. */
  lemma SameAccessKeepsRecency(s: Pool, t: Pool)
    requires RecencyExact(s) && t.recent == s.recent && t.now == s.now
    requires t.frames.Keys == s.frames.Keys
    requires forall p :: p in s.frames ==> t.frames[p].lastAccess == s.frames[p].lastAccess
    ensures RecencyExact(t) && |t.frames| == |s.frames|
  {
    RecencyDescends(s);
    DescendingFrame(s.recent, s.frames, t.frames);
    assert |t.frames| == |t.frames.Keys| == |s.frames.Keys|;
  }

  lemma TouchIsShaped(s: Pool, p: PageId, mode: FetchMode)
    requires Shaped(s) && p in s.frames
    ensures Shaped(Touch(s, p, mode)) && SameView(s, Touch(s, p, mode))
    ensures CleanFramesMatchDisk(s) ==> CleanFramesMatchDisk(Touch(s, p, mode))
  {
    hide Without, RecencyExact;
    FrontKeepsRecency(s, p, Touch(s, p, mode).frames[p]);
    assert Touch(s, p, mode).frames.Keys == s.frames.Keys;
  }

  lemma AddFrameView(s: Pool, p: PageId, f: Frame)
    ensures forall q :: View(AddFrame(s, p, f), q) == if q == p then Some(f.contents) else View(s, q)
  {}

  lemma AddFrameSize(s: Pool, p: PageId, f: Frame)
    requires p !in s.frames
    ensures |AddFrame(s, p, f).frames| == |s.frames| + 1
  {
    assert AddFrame(s, p, f).frames.Keys == s.frames.Keys + {p};
  }

  lemma AddFrameIsShaped(s: Pool, p: PageId, f: Frame)
    requires Shaped(s) && p !in s.frames && |s.frames| < s.size && p < s.nextPage && f.lastAccess == s.now
    ensures Shaped(AddFrame(s, p, f))
    ensures forall q :: View(AddFrame(s, p, f), q) == if q == p then Some(f.contents) else View(s, q)
  {
    hide RecencyExact, View;
    AddFrameView(s, p, f);
    AddKeepsRecency(s, p, f);
    AddFrameSize(s, p, f);
  }

  lemma AddFrameKeepsClean(s: Pool, p: PageId, f: Frame)
    requires CleanFramesMatchDisk(s) && p !in s.frames
    requires f.dirty || OnDisk(s, p) == Some(f.contents)
    ensures CleanFramesMatchDisk(AddFrame(s, p, f))
  {
    var t := AddFrame(s, p, f);
    forall q | q in t.frames && !t.frames[q].dirty
      ensures q in t.disk && t.disk[q] == t.frames[q].contents
    {
      if q != p {
        assert q in s.frames;
      }
    }
  }

  lemma LoadIsShaped(s: Pool, p: PageId, mode: FetchMode)
    requires Shaped(s) && p !in s.frames && p in s.disk && |s.frames| < s.size
    ensures Shaped(Load(s, p, mode)) && SameView(s, Load(s, p, mode))
    ensures CleanFramesMatchDisk(s) ==> CleanFramesMatchDisk(Load(s, p, mode))
  {
    hide RecencyExact, AddFrame, CleanFramesMatchDisk;
    AddFrameIsShaped(s, p, OpenFrame(s.disk[p], mode, s.now));
    if CleanFramesMatchDisk(s) {
      AddFrameKeepsClean(s, p, OpenFrame(s.disk[p], mode, s.now));
    }
  }

  lemma CounterIsShaped(s: Pool)
    requires Shaped(s) && s.nextPage < INVALID_PAGE_ID
    ensures Shaped(s.(nextPage := s.nextPage + 1)) && View(s, s.nextPage) == None && s.nextPage !in s.frames
  {}

  lemma CreateIsShaped(s: Pool, contents: Contents)
    requires Shaped(s) && |s.frames| < s.size && s.nextPage < INVALID_PAGE_ID
    ensures View(s, s.nextPage) == None && Shaped(Create(s, contents))
    ensures forall p :: View(Create(s, contents), p) == if p == s.nextPage then Some(contents) else View(s, p)
    ensures CleanFramesMatchDisk(s) ==> CleanFramesMatchDisk(Create(s, contents))
  {
    hide Shaped, AddFrame;
    CounterIsShaped(s);
    var t, f := s.(nextPage := s.nextPage + 1), Frame(contents, 0, true, s.now);
    AddFrameIsShaped(t, s.nextPage, f);
    if CleanFramesMatchDisk(s) {
      AddFrameKeepsClean(t, s.nextPage, f);
    }
  }

  lemma DropIsShaped(s: Pool, p: PageId)
    requires Shaped(s) && p in s.frames
    ensures Shaped(Drop(s, p)) && |Drop(s, p).frames| == |s.frames| - 1
  {
    hide RecencyExact, Without;
    DropKeepsRecency(s, p);
    assert Drop(s, p).frames.Keys == s.frames.Keys - {p};
  }

  /** What a page shows after `p` left memory: all is as before, save that an unmarked change is gone. */
  lemma DropView(s: Pool, p: PageId, q: PageId)
    requires p in s.frames
    ensures View(Drop(s, p), q) == if q == p && Unmarked(s, p) then OnDisk(s, p) else View(s, q)
    ensures Unmarked(Drop(s, p), q) <==> q != p && Unmarked(s, q)
  {}

  /** A page leaves memory with the view kept exactly when it has no unmarked change. */
  lemma DropKeepsViewIff(s: Pool, p: PageId)
    requires p in s.frames
    ensures SameView(s, Drop(s, p)) <==> !Unmarked(s, p)
  {
    hide Drop, View, Unmarked;
    DropView(s, p, p);
    UnmarkedDiffers(s, p);
    forall q
      ensures View(Drop(s, p), q) == View(s, q) <==> !(q == p && Unmarked(s, p))
    {
      DropView(s, p, q);
    }
  }

  lemma UnpinIsShaped(s: Pool, p: PageId, dirty: bool)
    requires Shaped(s)
    ensures Shaped(Unpin(s, p, dirty)) && SameView(s, Unpin(s, p, dirty))
    ensures CleanFramesMatchDisk(s) ==> CleanFramesMatchDisk(Unpin(s, p, dirty))
  {
    hide RecencyExact;
    SameAccessKeepsRecency(s, Unpin(s, p, dirty));
  }

  lemma FlushIsShaped(s: Pool, p: PageId)
    requires Shaped(s)
    ensures Shaped(Flush(s, p)) && SameView(s, Flush(s, p))
    ensures CleanFramesMatchDisk(s) ==> CleanFramesMatchDisk(Flush(s, p))
    ensures p in s.frames && !Unmarked(s, p) ==> OnDisk(Flush(s, p), p) == View(s, p)
  {
    hide RecencyExact;
    SameAccessKeepsRecency(s, Flush(s, p));
  }

  /** A flush puts on the disk what the pool shows, save where a change is unmarked, which it skips. */
  lemma FlushAllAt(s: Pool, p: PageId)
    ensures View(FlushAll(s), p) == View(s, p)
    ensures OnDisk(FlushAll(s), p) == if Unmarked(s, p) then OnDisk(s, p) else View(s, p)
    ensures Unmarked(FlushAll(s), p) <==> Unmarked(s, p)
    ensures p in FlushAll(s).frames <==> p in s.frames
    ensures p in s.frames ==> FlushAll(s).frames[p] == s.frames[p].(dirty := false)
    ensures p in FlushAll(s).disk ==> p in s.disk || p in s.frames
    ensures FlushAll(s) == s.(disk := FlushAll(s).disk, frames := FlushAll(s).frames)
  {}

  lemma FlushAllIsShaped(s: Pool)
    requires Shaped(s)
    ensures Shaped(FlushAll(s)) && SameView(s, FlushAll(s))
  {
    hide RecencyExact, FlushAll, View;
    var t := FlushAll(s);
    FlushAllAt(s, 0);
    forall p
      ensures View(t, p) == View(s, p)
      ensures p in t.frames <==> p in s.frames
      ensures p in s.frames ==> t.frames[p] == s.frames[p].(dirty := false)
      ensures p in t.disk ==> p in s.disk || p in s.frames
    {
      FlushAllAt(s, p);
    }
    assert t.frames.Keys == s.frames.Keys;
    SameAccessKeepsRecency(s, t);
  }

  lemma CleanMeansNoneUnmarked(s: Pool)
    ensures CleanFramesMatchDisk(s) <==> forall p :: !Unmarked(s, p)
  {
    if forall p :: !Unmarked(s, p) {
      forall p | p in s.frames && !s.frames[p].dirty
        ensures p in s.disk && s.disk[p] == s.frames[p].contents
      {
        assert !Unmarked(s, p);
      }
    }
  }

  /** After `flushAll` the disk alone is the view, exactly when no change is unmarked. */
  lemma FlushAllPersistsView(s: Pool)
    ensures (forall p :: OnDisk(FlushAll(s), p) == View(s, p)) <==> CleanFramesMatchDisk(s)
    ensures CleanFramesMatchDisk(FlushAll(s)) <==> CleanFramesMatchDisk(s)
  {
    hide View, FlushAll, OnDisk, CleanFramesMatchDisk, Unmarked;
    CleanMeansNoneUnmarked(s);
    CleanMeansNoneUnmarked(FlushAll(s));
    forall p
      ensures OnDisk(FlushAll(s), p) == View(s, p) <==> !Unmarked(s, p)
      ensures Unmarked(FlushAll(s), p) <==> Unmarked(s, p)
    {
      FlushAllAt(s, p);
      UnmarkedDiffers(s, p);
    }
  }

  lemma UnmarkedDiffers(s: Pool, p: PageId)
    ensures Unmarked(s, p) ==> OnDisk(s, p) != View(s, p)
  {}

  lemma ClearIsShaped(s: Pool)
    requires Shaped(s)
    ensures Shaped(Clear(s)) && CleanFramesMatchDisk(Clear(s))
    ensures forall p :: View(Clear(s), p) == OnDisk(s, p)
  {}

  lemma ResizeIsShaped(s: Pool, n: nat)
    requires Shaped(s) && |s.frames| <= n <= MAX_POOL_SIZE
    ensures Shaped(s.(size := n)) && SameView(s, s.(size := n))
    ensures CleanFramesMatchDisk(s) ==> CleanFramesMatchDisk(s.(size := n))
  {}

  /** A client's store shows at once; it leaves the clean frames matching exactly when it hits a
      marked frame or writes what the disk has. */
  lemma StoreIsShaped(s: Pool, p: PageId, contents: Contents)
    requires Shaped(s) && p in s.frames
    ensures Shaped(Store(s, p, contents))
    ensures forall q :: View(Store(s, p, contents), q) == if q == p then Some(contents) else View(s, q)
    ensures CleanFramesMatchDisk(s) ==>
      (CleanFramesMatchDisk(Store(s, p, contents)) <==> s.frames[p].dirty || OnDisk(s, p) == Some(contents))
  {
    hide RecencyExact;
    SameAccessKeepsRecency(s, Store(s, p, contents));
    var t := Store(s, p, contents);
    if CleanFramesMatchDisk(s) && !s.frames[p].dirty && CleanFramesMatchDisk(t) {
      assert p in t.frames && !t.frames[p].dirty;
    }
  }

  // ---------- Victims ----------

  /** What each strategy promises of the page it picks. */
  ghost predicate IsVictim(s: Pool, strategy: Strategy, v: PageId) {
    && v in s.frames
    && (strategy != FIFO ==> !Pinned(s, v))
    && (strategy == LRU ==> forall p :: p in s.frames && !Pinned(s, p) ==> s.frames[v].lastAccess <= s.frames[p].lastAccess)
    && (strategy == FIFO ==> forall p :: p in s.frames ==> s.frames[v].lastAccess <= s.frames[p].lastAccess)
  }

  /** A page this strategy may pick exists. */
  ghost predicate HasCandidate(s: Pool, strategy: Strategy) {
    exists p :: p in s.frames && (strategy == FIFO || !Pinned(s, p))
  }

  ghost function DropAll(s: Pool, victims: seq<PageId>): Pool
    decreases victims
  {
    if victims == [] then s
    else if victims[0] in s.frames then DropAll(Drop(s, victims[0]), victims[1..]) else s
  }

  /** Each page of the list was a proper victim when its turn came. */
  ghost predicate ProperVictims(s: Pool, strategy: Strategy, victims: seq<PageId>)
    decreases victims
  {
    victims != [] ==>
      IsVictim(s, strategy, victims[0]) && ProperVictims(Drop(s, victims[0]), strategy, victims[1..])
  }

  lemma {:induction false} DropAllAppend(s: Pool, strategy: Strategy, victims: seq<PageId>, v: PageId)
    requires ProperVictims(s, strategy, victims) && IsVictim(DropAll(s, victims), strategy, v)
    ensures ProperVictims(s, strategy, victims + [v])
    ensures DropAll(s, victims + [v]) == Drop(DropAll(s, victims), v)
    decreases victims
  {
    hide Drop, IsVictim;
    if victims == [] {
      VictimIsResident(s, strategy, v);
      var t := Drop(s, v);
      assert [v][1..] == [];
      assert DropAll(t, []) == t;
      assert ProperVictims(t, strategy, []);
    } else {
      VictimIsResident(s, strategy, victims[0]);
      assert (victims + [v])[1..] == victims[1..] + [v];
      DropAllAppend(Drop(s, victims[0]), strategy, victims[1..], v);
    }
  }

  lemma VictimIsResident(s: Pool, strategy: Strategy, v: PageId)
    requires IsVictim(s, strategy, v)
    ensures v in s.frames
  {}

  ghost function PinnedPages(s: Pool): set<PageId> {
    set p | p in s.frames && Pinned(s, p)
  }

  /** Evictions keep the pool in shape, and the view exactly when no victim has an unmarked change. */
  lemma {:induction false} EvictionsKeepShape(s: Pool, strategy: Strategy, victims: seq<PageId>)
    requires Shaped(s) && ProperVictims(s, strategy, victims)
    ensures Shaped(DropAll(s, victims)) && |DropAll(s, victims).frames| == |s.frames| - |victims|
    decreases victims
  {
    hide Shaped, IsVictim, Drop;
    if victims != [] {
      VictimIsResident(s, strategy, victims[0]);
      DropIsShaped(s, victims[0]);
      EvictionsKeepShape(Drop(s, victims[0]), strategy, victims[1..]);
    }
  }

  lemma {:induction false} EvictionsView(s: Pool, strategy: Strategy, victims: seq<PageId>, p: PageId)
    requires ProperVictims(s, strategy, victims)
    ensures View(DropAll(s, victims), p) == if p in victims && Unmarked(s, p) then OnDisk(s, p) else View(s, p)
    ensures Unmarked(DropAll(s, victims), p) <==> p !in victims && Unmarked(s, p)
    decreases victims
  {
    hide IsVictim, Drop, View, OnDisk, Unmarked;
    if victims != [] {
      var v, rest := victims[0], victims[1..];
      VictimIsResident(s, strategy, v);
      DropView(s, v, p);
      DropView(s, v, v);
      EvictionsView(Drop(s, v), strategy, rest, p);
      assert victims == [v] + rest;
      DropKeepsOtherDisk(s, v, p);
    }
  }

  lemma DropKeepsOtherDisk(s: Pool, v: PageId, p: PageId)
    requires v in s.frames
    ensures p != v ==> OnDisk(Drop(s, v), p) == OnDisk(s, p)
  {}

  lemma EvictionsKeepView(s: Pool, strategy: Strategy, victims: seq<PageId>)
    requires ProperVictims(s, strategy, victims)
    ensures SameView(s, DropAll(s, victims)) <==> forall v :: v in victims ==> !Unmarked(s, v)
    ensures CleanFramesMatchDisk(s) ==> CleanFramesMatchDisk(DropAll(s, victims))
  {
    hide ProperVictims, DropAll, View, OnDisk, Unmarked, CleanFramesMatchDisk;
    CleanMeansNoneUnmarked(s);
    CleanMeansNoneUnmarked(DropAll(s, victims));
    forall p
      ensures View(DropAll(s, victims), p) == View(s, p) <==> !(p in victims && Unmarked(s, p))
      ensures Unmarked(DropAll(s, victims), p) <==> p !in victims && Unmarked(s, p)
    {
      EvictionsView(s, strategy, victims, p);
      UnmarkedDiffers(s, p);
    }
  }

  /** Evictions remove exactly the listed pages, and outside FIFO never a pinned one. */
  lemma {:induction false} EvictionsRemove(s: Pool, strategy: Strategy, victims: seq<PageId>, p: PageId)
    requires ProperVictims(s, strategy, victims)
    ensures p in DropAll(s, victims).frames <==> p in s.frames && p !in victims
    ensures p in DropAll(s, victims).frames ==> DropAll(s, victims).frames[p] == s.frames[p]
    ensures strategy != FIFO && Pinned(s, p) ==> p !in victims
    decreases victims
  {
    hide IsVictim, Without;
    if victims != [] {
      VictimIsResident(s, strategy, victims[0]);
      VictimIsUnpinned(s, strategy, victims[0]);
      EvictionsRemove(Drop(s, victims[0]), strategy, victims[1..], p);
      assert victims == [victims[0]] + victims[1..];
    }
  }

  lemma VictimIsUnpinned(s: Pool, strategy: Strategy, v: PageId)
    requires IsVictim(s, strategy, v)
    ensures strategy != FIFO ==> !Pinned(s, v)
  {}

  /** FIFO takes the least recent page of the list and looks at no pin. */
  lemma FifoTakesLast(s: Pool, v: PageId)
    requires Shaped(s) && IsVictim(s, FIFO, v)
    ensures s.recent != [] && v == s.recent[|s.recent| - 1]
  {
    var i :| 0 <= i < |s.recent| && s.recent[i] == v;
    var last := s.recent[|s.recent| - 1];
    assert last in s.recent;
  }

  lemma LastIsFifoVictim(s: Pool)
    requires Shaped(s) && s.recent != []
    ensures IsVictim(s, FIFO, s.recent[|s.recent| - 1])
  {
    assert s.recent[|s.recent| - 1] in s.recent;
  }

  /** FIFO evicts a pinned page exactly when the least recent page is pinned. */
  lemma FifoEvictsPinnedIff(s: Pool)
    requires Shaped(s)
    ensures (exists v :: IsVictim(s, FIFO, v) && Pinned(s, v)) <==>
      s.recent != [] && Pinned(s, s.recent[|s.recent| - 1])
  {
    hide IsVictim, Shaped;
    if v :| IsVictim(s, FIFO, v) && Pinned(s, v) {
      FifoTakesLast(s, v);
    }
    if s.recent != [] {
      LastIsFifoVictim(s);
    }
  }

  /** And it does happen. */
  lemma FifoEvictsPinned()
    ensures exists s, v :: Valid(s) && IsVictim(s, FIFO, v) && Pinned(s, v)
  {
    var s := Pool(map[1 := Frame([], 1, true, 0)], [1], map[], 1, 2, 1);
    assert Valid(s) && IsVictim(s, FIFO, 1) && Pinned(s, 1);
  }
}
