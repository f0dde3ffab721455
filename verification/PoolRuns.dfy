/** Whole runs of the buffer pool against a map from page to last stored contents. */
module PoolRuns {
  import opened Common
  import opened PoolState

  datatype Action =
    | Hit(page: PageId, mode: FetchMode)
    | Miss(page: PageId, mode: FetchMode)
    | New(contents: Contents)
    | Evict(page: PageId)
    | Release(page: PageId, dirty: bool)
    | Sync(page: PageId)
    | SyncAll
    | DiscardAll
    | Resize(size: nat)
    | Put(page: PageId, contents: Contents)

  /** When the pool or its client can take the action. A client writes to a resident page at any
      time, through the pointer it was given; the pool does not see it. */
  ghost predicate Enabled(s: Pool, a: Action) {
    match a
    case Hit(p, _) => p in s.frames
    case Miss(p, _) => p !in s.frames && p in s.disk && |s.frames| < s.size
    case New(_) => |s.frames| < s.size && s.nextPage < INVALID_PAGE_ID
    case Evict(p) => p in s.frames
    case Resize(n) => |s.frames| <= n <= MAX_POOL_SIZE
    case Put(p, _) => p in s.frames
    case _ => true
  }

  ghost function Next(s: Pool, a: Action): Pool
    requires Enabled(s, a)
  {
    match a
    case Hit(p, mode) => Touch(s, p, mode)
    case Miss(p, mode) => Load(s, p, mode)
    case New(c) => Create(s, c)
    case Evict(p) => Drop(s, p)
    case Release(p, dirty) => Unpin(s, p, dirty)
    case Sync(p) => Flush(s, p)
    case SyncAll => FlushAll(s)
    case DiscardAll => Clear(FlushAll(s))
    case Resize(n) => s.(size := n)
    case Put(p, c) => Store(s, p, c)
  }

  ghost predicate IsRun(s: Pool, run: seq<Action>)
    decreases run
  {
    run != [] ==> Enabled(s, run[0]) && IsRun(Next(s, run[0]), run[1..])
  }

  ghost function After(s: Pool, run: seq<Action>): Pool
    requires IsRun(s, run)
    decreases run
  {
    if run == [] then s else After(Next(s, run[0]), run[1..])
  }

  // ---------- The reference ----------

  /** The reference is a map from page to last stored contents, changed by writes and page creation only. */
  ghost function Effect(pages: map<PageId, Contents>, nextPage: PageId, a: Action): map<PageId, Contents> {
    match a
    case New(c) => pages[nextPage := c]
    case Put(p, c) => pages[p := c]
    case _ => pages
  }

  ghost function Stored(pages: map<PageId, Contents>, nextPage: PageId, run: seq<Action>): map<PageId, Contents>
    decreases run
  {
    if run == [] then pages
    else Stored(Effect(pages, nextPage, run[0]), if run[0].New? then nextPage + 1 else nextPage, run[1..])
  }

  ghost predicate Agrees(s: Pool, pages: map<PageId, Contents>) {
    forall p :: View(s, p) == if p in pages then Some(pages[p]) else None
  }

  /** Every page shows its last stored contents, at the start and after each action of the run. */
  ghost predicate AgreesThroughout(s: Pool, pages: map<PageId, Contents>, run: seq<Action>)
    requires IsRun(s, run)
    decreases run
  {
    Agrees(s, pages) &&
    (run != [] ==> AgreesThroughout(Next(s, run[0]), Effect(pages, s.nextPage, run[0]), run[1..]))
  }

  /** A page leaves memory unmarked while its frame differs from the disk: the `isDirty` test skips it. */
  ghost predicate Forgets(s: Pool, a: Action) {
    (a.Evict? && Unmarked(s, a.page)) || (a.DiscardAll? && exists p :: Unmarked(s, p))
  }

  ghost predicate LosesNothing(s: Pool, run: seq<Action>)
    requires IsRun(s, run)
    decreases run
  {
    run != [] ==> !Forgets(s, run[0]) && LosesNothing(Next(s, run[0]), run[1..])
  }

  // ---------- One action ----------

  lemma StepIsShaped(s: Pool, a: Action)
    requires Shaped(s) && Enabled(s, a)
    ensures Shaped(Next(s, a))
  {
    hide Shaped, View, Touch, Load, Create, Drop, Unpin, Flush, FlushAll, Clear, Store;
    match a
    case Hit(p, mode) => TouchIsShaped(s, p, mode);
    case Miss(p, mode) => LoadIsShaped(s, p, mode);
    case New(c) => CreateIsShaped(s, c);
    case Evict(p) => DropIsShaped(s, p);
    case Release(p, dirty) => UnpinIsShaped(s, p, dirty);
    case Sync(p) => FlushIsShaped(s, p);
    case SyncAll => FlushAllIsShaped(s);
    case DiscardAll =>
      FlushAllIsShaped(s);
      ClearIsShaped(FlushAll(s));
    case Resize(n) => ResizeIsShaped(s, n);
    case Put(p, c) => StoreIsShaped(s, p, c);
  }

  /** What page `p` should show after the action. */
  ghost function ViewAfter(s: Pool, a: Action, p: PageId): Option<Contents> {
    if a.New? && p == s.nextPage then Some(a.contents)
    else if a.Put? && p == a.page then Some(a.contents)
    else View(s, p)
  }

  /** The pages an action forgets. */
  ghost predicate ForgetsPage(s: Pool, a: Action, p: PageId) {
    ((a.Evict? && a.page == p) || a.DiscardAll?) && Unmarked(s, p)
  }

  lemma StepView(s: Pool, a: Action, p: PageId)
    requires Shaped(s) && Enabled(s, a)
    ensures View(Next(s, a), p) == if ForgetsPage(s, a, p) then OnDisk(s, p) else ViewAfter(s, a, p)
  {
    hide Shaped, View, Touch, Load, Create, Drop, Unpin, Flush, FlushAll, Clear, Store, OnDisk, Unmarked;
    match a
    case Hit(q, mode) => TouchIsShaped(s, q, mode);
    case Miss(q, mode) => LoadIsShaped(s, q, mode);
    case New(c) => CreateIsShaped(s, c);
    case Evict(q) => DropView(s, q, p);
    case Release(q, dirty) => UnpinIsShaped(s, q, dirty);
    case Sync(q) => FlushIsShaped(s, q);
    case SyncAll => FlushAllIsShaped(s);
    case DiscardAll =>
      FlushAllIsShaped(s);
      FlushAllAt(s, p);
      ClearIsShaped(FlushAll(s));
    case Resize(n) => ResizeIsShaped(s, n);
    case Put(q, c) => StoreIsShaped(s, q, c);
  }

  /** Each action shows what it should, and nothing else changes, exactly when it forgets nothing. */
  lemma StepShowsIff(s: Pool, a: Action)
    requires Shaped(s) && Enabled(s, a)
    ensures (forall p :: View(Next(s, a), p) == ViewAfter(s, a, p)) <==> !Forgets(s, a)
  {
    hide Shaped, View, Next, OnDisk, Unmarked, Enabled;
    forall p
      ensures View(Next(s, a), p) == ViewAfter(s, a, p) <==> !ForgetsPage(s, a, p)
    {
      StepView(s, a, p);
      UnmarkedDiffers(s, p);
    }
    if a.Evict? {
      assert ForgetsPage(s, a, a.page) <==> Forgets(s, a);
    } else if a.DiscardAll? {
      assert forall p :: ForgetsPage(s, a, p) <==> Unmarked(s, p);
    }
  }

  lemma StepCounter(s: Pool, a: Action)
    requires Enabled(s, a)
    ensures Next(s, a).nextPage == if a.New? then s.nextPage + 1 else s.nextPage
  {}

  /** Each action has the effect of the reference on the view, exactly when it forgets nothing. */
  lemma StepRefinesIff(s: Pool, pages: map<PageId, Contents>, a: Action)
    requires Shaped(s) && Enabled(s, a) && Agrees(s, pages)
    ensures Agrees(Next(s, a), Effect(pages, s.nextPage, a)) <==> !Forgets(s, a)
  {
    hide Shaped, View, Next, Enabled, Forgets;
    StepShowsIff(s, a);
    var after := Effect(pages, s.nextPage, a);
    assert forall p :: ViewAfter(s, a, p) == if p in after then Some(after[p]) else None;
  }

  // ---------- Whole runs ----------

  /** Cache refinement: over a run, with client writes at any time, every page always shows its last
      stored contents exactly when no page leaves memory unmarked while it differs from the disk. */
  lemma {:induction false} ShowsLastStoreIff(s: Pool, pages: map<PageId, Contents>, run: seq<Action>)
    requires Shaped(s) && IsRun(s, run) && Agrees(s, pages)
    ensures AgreesThroughout(s, pages, run) <==> LosesNothing(s, run)
    ensures Shaped(After(s, run))
    decreases run
  {
    hide Shaped, Agrees, Enabled, Next, Forgets, Effect;
    if run != [] {
      var t, after := Next(s, run[0]), Effect(pages, s.nextPage, run[0]);
      StepIsShaped(s, run[0]);
      StepRefinesIff(s, pages, run[0]);
      if Agrees(t, after) {
        ShowsLastStoreIff(t, after, run[1..]);
      } else {
        RunIsShaped(t, run[1..]);
      }
    }
  }

  lemma {:induction false} RunIsShaped(s: Pool, run: seq<Action>)
    requires Shaped(s) && IsRun(s, run)
    ensures Shaped(After(s, run))
    decreases run
  {
    hide Shaped, Enabled, Next;
    if run != [] {
      StepIsShaped(s, run[0]);
      RunIsShaped(Next(s, run[0]), run[1..]);
    }
  }

  lemma {:induction false} AgreesAtTheEnd(s: Pool, pages: map<PageId, Contents>, run: seq<Action>)
    requires IsRun(s, run) && AgreesThroughout(s, pages, run)
    ensures Agrees(After(s, run), Stored(pages, s.nextPage, run))
    decreases run
  {
    hide Agrees, Enabled, Next, Effect;
    if run != [] {
      StepCounter(s, run[0]);
      AgreesAtTheEnd(Next(s, run[0]), Effect(pages, s.nextPage, run[0]), run[1..]);
    }
  }

  /** After a run that loses nothing, `flushAll` makes the disk alone the map of last stored
      contents, exactly when no change is unmarked at that moment. */
  lemma FlushedDiskIsMapIff(s: Pool, pages: map<PageId, Contents>, run: seq<Action>)
    requires Shaped(s) && IsRun(s, run) && Agrees(s, pages) && LosesNothing(s, run)
    ensures FlushAll(After(s, run)).disk == Stored(pages, s.nextPage, run) <==> CleanFramesMatchDisk(After(s, run))
  {
    hide Shaped, Stored, FlushAll, After, CleanFramesMatchDisk, LosesNothing, AgreesThroughout, View;
    ShowsLastStoreIff(s, pages, run);
    AgreesAtTheEnd(s, pages, run);
    FlushAllPersistsView(After(s, run));
    var t, stored := FlushAll(After(s, run)), Stored(pages, s.nextPage, run);
    DiskIsMapIff(t, stored);
  }

  lemma DiskIsMapIff(t: Pool, stored: map<PageId, Contents>)
    ensures t.disk == stored <==> forall p :: OnDisk(t, p) == if p in stored then Some(stored[p]) else None
  {
    if forall p :: OnDisk(t, p) == if p in stored then Some(stored[p]) else None {
      forall p
        ensures p in t.disk <==> p in stored
        ensures p in t.disk ==> t.disk[p] == stored[p]
      {
        assert OnDisk(t, p) == if p in stored then Some(stored[p]) else None;
      }
    }
  }

  // ---------- Clients that mark their writes ----------

  ghost predicate Marks(a: Action, p: PageId) {
    a == Release(p, true) || a == Hit(p, Write) || a == Miss(p, Write)
  }

  /** Every write goes to a marked frame, or the next action on the pool marks it. */
  ghost predicate MarksWrites(s: Pool, run: seq<Action>)
    requires IsRun(s, run)
    decreases run
  {
    run != [] ==>
      && (run[0].Put? && !s.frames[run[0].page].dirty ==> |run| > 1 && Marks(run[1], run[0].page))
      && MarksWrites(Next(s, run[0]), run[1..])
  }

  lemma StepUnmarked(s: Pool, a: Action, p: PageId)
    requires Enabled(s, a) && Unmarked(Next(s, a), p)
    ensures !Marks(a, p)
    ensures Unmarked(s, p) || (a.Put? && a.page == p && !s.frames[p].dirty)
  {
    hide Without, FlushAll;
    if a.SyncAll? || a.DiscardAll? {
      FlushAllAt(s, p);
    }
  }

  /** What is unmarked, the next action marks. */
  ghost predicate MarkIsNext(s: Pool, run: seq<Action>) {
    forall p :: Unmarked(s, p) ==> run != [] && Marks(run[0], p)
  }

  lemma MarkStaysNext(s: Pool, run: seq<Action>)
    requires IsRun(s, run) && run != [] && MarksWrites(s, run) && MarkIsNext(s, run)
    ensures !Forgets(s, run[0]) && MarkIsNext(Next(s, run[0]), run[1..])
  {
    hide Next, Unmarked;
    forall p | Unmarked(Next(s, run[0]), p)
      ensures run[1..] != [] && Marks(run[1..][0], p)
    {
      StepUnmarked(s, run[0], p);
    }
  }

  lemma {:induction false} MarkedRunLosesNothing(s: Pool, run: seq<Action>)
    requires IsRun(s, run) && MarksWrites(s, run) && MarkIsNext(s, run)
    ensures LosesNothing(s, run) && CleanFramesMatchDisk(After(s, run))
    decreases run
  {
    hide Enabled, Next, Marks, Forgets, Unmarked, CleanFramesMatchDisk;
    if run == [] {
      CleanMeansNoneUnmarked(s);
    } else {
      MarkStaysNext(s, run);
      MarkedRunLosesNothing(Next(s, run[0]), run[1..]);
    }
  }

  /** Clients that mark their writes always see what they stored last, wherever the page is; clean
      frames equal the disk at the end, and a flush then makes the disk the map. */
  lemma CacheRefinesMap(s: Pool, pages: map<PageId, Contents>, run: seq<Action>)
    requires Valid(s) && IsRun(s, run) && Agrees(s, pages) && MarksWrites(s, run)
    ensures AgreesThroughout(s, pages, run) && Valid(After(s, run))
    ensures Agrees(After(s, run), Stored(pages, s.nextPage, run))
    ensures FlushAll(After(s, run)).disk == Stored(pages, s.nextPage, run)
  {
    hide Agrees, AgreesThroughout, MarksWrites, IsRun, After, Stored, Shaped, CleanFramesMatchDisk, Unmarked;
    CleanMeansNoneUnmarked(s);
    MarkedRunLosesNothing(s, run);
    ShowsLastStoreIff(s, pages, run);
    AgreesAtTheEnd(s, pages, run);
    FlushedDiskIsMapIff(s, pages, run);
  }

  /** A pool of one frame holding page 1, whose disk contents are [7]. */
  ghost function OnePage(contents: Contents, dirty: bool, now: nat): Pool {
    Pool(map[1 := Frame(contents, 0, dirty, now)], [1], map[1 := [7]], 1, 2, now + 1)
  }

  lemma OnePageSteps()
    ensures Touch(OnePage([7], false, 0), 1, Write) == OnePage([7], true, 1)
    ensures FlushAll(OnePage([7], true, 1)) == OnePage([7], false, 1)
    ensures Store(OnePage([7], false, 1), 1, [8]) == OnePage([8], false, 1)
    ensures Unmarked(OnePage([8], false, 1), 1)
    ensures View(Drop(OnePage([8], false, 1), 1), 1) == Some([7])
  {
    assert [1] + Without([1], 1) == [1] by {
      assert Without([1][1..], 1) == [];
    }
    assert FlushAll(OnePage([7], true, 1)).disk == map[1 := [7]];
    assert FlushAll(OnePage([7], true, 1)).frames == map[1 := Frame([7], 0, false, 1)];
  }

  lemma OnePageIsValid()
    ensures Valid(OnePage([7], false, 0)) && Agrees(OnePage([7], false, 0), map[1 := [7]])
  {}

  /** Page 1 is fetched for writing, flushed, written and evicted: the mark came before the flush,
      the write after it, and the write is gone. */
  lemma FlushedMarkLosesWrite()
    ensures
      var s := OnePage([7], false, 0);
      var run := [Hit(1, Write), SyncAll, Put(1, [8]), Evict(1)];
      && Valid(s) && Agrees(s, map[1 := [7]]) && IsRun(s, run) && !LosesNothing(s, run)
      && Stored(map[1 := [7]], 2, run) == map[1 := [8]] && View(After(s, run), 1) == Some([7])
  {
    hide Valid, Agrees, Touch, FlushAll, Store, Drop, View, Unmarked;
    OnePageSteps();
    OnePageIsValid();
    var run := [Hit(1, Write), SyncAll, Put(1, [8]), Evict(1)];
    assert run[1..] == [SyncAll, Put(1, [8]), Evict(1)];
    assert run[1..][1..] == [Put(1, [8]), Evict(1)];
    assert run[1..][1..][1..] == [Evict(1)];
    assert run[1..][1..][1..][1..] == [];
    assert IsRun(OnePage([8], false, 1), [Evict(1)]);
    assert IsRun(OnePage([7], false, 1), run[1..][1..]);
    assert IsRun(OnePage([7], true, 1), run[1..]);
  }

  // ---------- Pins ----------

  /** The pins an action adds to page `p`. */
  ghost function PinChange(a: Action, p: PageId): int {
    if a == Hit(p, Pin) || a == Miss(p, Pin) then 1
    else if a.Release? && a.page == p then -1
    else 0
  }

  /** Evictions as LRU and CLOCK make them, and no discards. */
  ghost predicate EvictsUnpinned(s: Pool, run: seq<Action>)
    requires IsRun(s, run)
    decreases run
  {
    run != [] ==>
      && (run[0].Evict? ==> !Pinned(s, run[0].page)) && !run[0].DiscardAll?
      && EvictsUnpinned(Next(s, run[0]), run[1..])
  }

  /** With `k` pins at the start, the run's pins and unpins of `p` never use them up; the final count. */
  ghost predicate KeepsPinned(run: seq<Action>, p: PageId, k: int, final: int)
    decreases run
  {
    k > 0 && if run == [] then final == k else KeepsPinned(run[1..], p, k + PinChange(run[0], p), final)
  }

  /** The pins of a page; none when it is not resident. */
  ghost function Pins(s: Pool, p: PageId): nat {
    if p in s.frames then s.frames[p].pins else 0
  }

  /** From any count, zero included, an action adds its pins or takes one, and a page that leaves
      memory has none. */
  lemma PinCount(s: Pool, a: Action, p: PageId)
    requires Enabled(s, a) && s.nextPage !in s.frames
    ensures Pins(Next(s, a), p) ==
      if a == Evict(p) || a.DiscardAll? || Pins(s, p) + PinChange(a, p) < 0 then 0 else Pins(s, p) + PinChange(a, p)
  {}

  lemma PinStep(s: Pool, a: Action, p: PageId)
    requires Enabled(s, a) && p in s.frames && s.frames[p].pins > 0 && s.nextPage !in s.frames
    requires (a.Evict? ==> !Pinned(s, a.page)) && !a.DiscardAll?
    ensures p in Next(s, a).frames && Next(s, a).frames[p].pins == s.frames[p].pins + PinChange(a, p)
  {}

  lemma CounterIsFree(s: Pool)
    requires Shaped(s)
    ensures s.nextPage !in s.frames
  {}

  /** Pins protect: a page whose pins are not used up stays resident through every eviction, and
      its count is the number of pins less the number of unpins. */
  lemma {:induction false} PinsProtect(s: Pool, run: seq<Action>, p: PageId, final: int)
    requires Shaped(s) && IsRun(s, run) && EvictsUnpinned(s, run)
    requires p in s.frames && KeepsPinned(run, p, s.frames[p].pins, final)
    ensures p in After(s, run).frames && After(s, run).frames[p].pins == final
    decreases run
  {
    hide Shaped, View, Next, Enabled, PinChange;
    if run != [] {
      CounterIsFree(s);
      PinStep(s, run[0], p);
      StepIsShaped(s, run[0]);
      PinsProtect(Next(s, run[0]), run[1..], p, final);
    }
  }

  lemma FetchedIsResident(s: Pool, p: PageId, mode: FetchMode, a: Action)
    requires Enabled(s, a) && (a == Hit(p, mode) || a == Miss(p, mode))
    ensures p in Next(s, a).frames
  {}

  /** A fetch with Pin, of a page in memory or not, pins it, and the page then stays resident through
      every LRU or CLOCK eviction until its pins are used up. */
  lemma PinnedFetchProtects(s: Pool, p: PageId, a: Action, more: seq<Action>, final: int)
    requires Shaped(s) && (a == Hit(p, Pin) || a == Miss(p, Pin)) && Enabled(s, a)
    requires IsRun(Next(s, a), more) && EvictsUnpinned(Next(s, a), more)
    requires KeepsPinned(more, p, Pins(s, p) + 1, final)
    ensures Pinned(Next(s, a), p)
    ensures p in After(Next(s, a), more).frames && After(Next(s, a), more).frames[p].pins == final
  {
    hide Shaped, Next, Enabled, KeepsPinned, EvictsUnpinned, IsRun;
    CounterIsFree(s);
    PinCount(s, a, p);
    FetchedIsResident(s, p, Pin, a);
    StepIsShaped(s, a);
    PinsProtect(Next(s, a), more, p, final);
  }

  // ---------- Writes after a fetch for writing ----------

  /** The page shows `c`, and dropping it would not lose it. */
  ghost predicate Keeps(s: Pool, p: PageId, c: Contents) {
    View(s, p) == Some(c) && !Unmarked(s, p)
  }

  lemma StepKeepsWrite(s: Pool, a: Action, p: PageId, c: Contents)
    requires Shaped(s) && Enabled(s, a) && Keeps(s, p, c) && !(a.Put? && a.page == p)
    ensures Keeps(Next(s, a), p, c)
  {
    hide Shaped, Next, View, Unmarked, Enabled;
    StepView(s, a, p);
    FreshPageShowsNothing(s);
    if Unmarked(Next(s, a), p) {
      StepUnmarked(s, a, p);
    }
  }

  lemma FreshPageShowsNothing(s: Pool)
    requires Shaped(s)
    ensures View(s, s.nextPage) == None
  {}

  lemma {:induction false} RunKeepsWrite(s: Pool, run: seq<Action>, p: PageId, c: Contents)
    requires Shaped(s) && IsRun(s, run) && Keeps(s, p, c)
    requires forall i :: 0 <= i < |run| ==> !(run[i].Put? && run[i].page == p)
    ensures Keeps(After(s, run), p, c)
    decreases run
  {
    hide Shaped, Next, Keeps, Enabled;
    if run != [] {
      StepIsShaped(s, run[0]);
      StepKeepsWrite(s, run[0], p, c);
      RunKeepsWrite(Next(s, run[0]), run[1..], p, c);
    }
  }

  lemma WriteToMarkedIsKept(s: Pool, p: PageId, c: Contents)
    requires p in s.frames && s.frames[p].dirty
    ensures Keeps(Store(s, p, c), p, c)
  {}

  lemma FetchForWritingMarks(s: Pool, p: PageId, a: Action)
    requires Enabled(s, a) && (a == Hit(p, Write) || a == Miss(p, Write))
    ensures p in Next(s, a).frames && Next(s, a).frames[p].dirty
  {}

  /** What is written right after a fetch for writing, of a page in memory or not, is shown until the
      next write to the page, through every flush and eviction. */
  lemma WriteFetchIsKept(s: Pool, p: PageId, a: Action, c: Contents, more: seq<Action>)
    requires Shaped(s) && (a == Hit(p, Write) || a == Miss(p, Write))
    requires IsRun(s, [a, Put(p, c)] + more)
    requires forall i :: 0 <= i < |more| ==> !(more[i].Put? && more[i].page == p)
    ensures View(After(s, [a, Put(p, c)] + more), p) == Some(c)
  {
    hide Shaped, View, Unmarked, IsRun, After, Next, Enabled;
    RunOfTwo(s, a, Put(p, c), more);
    var t := Next(s, a);
    FetchForWritingMarks(s, p, a);
    StepIsShaped(s, a);
    StepIsShaped(t, Put(p, c));
    WriteToMarkedIsKept(t, p, c);
    RunKeepsWrite(Next(t, Put(p, c)), more, p, c);
  }

  lemma RunOfTwo(s: Pool, a: Action, b: Action, more: seq<Action>)
    requires IsRun(s, [a, b] + more)
    ensures Enabled(s, a) && Enabled(Next(s, a), b) && IsRun(Next(Next(s, a), b), more)
    ensures After(s, [a, b] + more) == After(Next(Next(s, a), b), more)
    ensures b.Put? ==> b.page in Next(s, a).frames && Next(Next(s, a), b) == Store(Next(s, a), b.page, b.contents)
  {
    hide Touch, Load, Create, Drop, Unpin, Flush, FlushAll, Clear;
    var run := [a, b] + more;
    assert run[1..] == [b] + more && run[1..][1..] == more;
  }

  // ---------- The ledger of each page ----------

  /** What the actions say of a page: absent from memory, or its pins, its mark, and the time of its
      last fetch or creation, in accesses. */
  datatype Line = Absent | Line(pins: nat, marked: bool, used: nat)

  ghost predicate Accesses(a: Action) {
    a.Hit? || a.Miss? || a.New?
  }

  /** Entering action `a`, at access time `now`, when the next page id is `next`. */
  ghost function Entered(l: Line, a: Action, p: PageId, next: PageId, now: nat): Line {
    if a == Evict(p) || a.DiscardAll? then Absent
    else if a.New? && p == next then Line(0, true, now)
    else if a.Miss? && a.page == p then Line(if a.mode == Pin then 1 else 0, a.mode == Write, now)
    else if l.Absent? then Absent
    else if a == Sync(p) || a.SyncAll? then l.(marked := false)
    else if a.Hit? && a.page == p then
      Line(if a.mode == Pin then l.pins + 1 else l.pins, l.marked || a.mode == Write, now)
    else if a.Release? && a.page == p then
      Line(if l.pins > 0 then l.pins - 1 else 0, l.marked || a.dirty, l.used)
    else l
  }

  ghost function Tally(l: Line, run: seq<Action>, p: PageId, next: PageId, now: nat): Line
    decreases run
  {
    if run == [] then l
    else
      Tally(Entered(l, run[0], p, next, now), run[1..], p,
            if run[0].New? then next + 1 else next, if Accesses(run[0]) then now + 1 else now)
  }

  ghost function LineOf(s: Pool, p: PageId): Line {
    if p in s.frames then Line(s.frames[p].pins, s.frames[p].dirty, s.frames[p].lastAccess) else Absent
  }

  lemma StepLine(s: Pool, a: Action, p: PageId)
    requires Enabled(s, a) && s.nextPage !in s.frames
    ensures LineOf(Next(s, a), p) == Entered(LineOf(s, p), a, p, s.nextPage, s.now)
    ensures Next(s, a).now == if Accesses(a) then s.now + 1 else s.now
  {
    hide Without, FlushAll, View, OnDisk, Unmarked;
    if a.SyncAll? || a.DiscardAll? {
      FlushAllAt(s, p);
    } else if a.Hit? || a.Release? {
      PageStepLine(s, a, p);
    }
  }

  lemma PageStepLine(s: Pool, a: Action, p: PageId)
    requires Enabled(s, a) && (a.Hit? || a.Release?)
    ensures LineOf(Next(s, a), p) == Entered(LineOf(s, p), a, p, s.nextPage, s.now)
    ensures Next(s, a).now == if Accesses(a) then s.now + 1 else s.now
  {
    hide Without;
  }

  /** After every run, pins, mark and access time of every page are what the actions say. */
  lemma {:induction false} LedgerAgrees(s: Pool, run: seq<Action>, p: PageId)
    requires Shaped(s) && IsRun(s, run)
    ensures LineOf(After(s, run), p) == Tally(LineOf(s, p), run, p, s.nextPage, s.now)
    decreases run
  {
    hide Shaped, Next, Enabled, Entered, LineOf;
    if run != [] {
      CounterIsFree(s);
      StepLine(s, run[0], p);
      StepCounter(s, run[0]);
      StepIsShaped(s, run[0]);
      LedgerAgrees(Next(s, run[0]), run[1..], p);
    }
  }

  /** After every run the recency list names the resident pages, the one fetched or created later
      before the one fetched or created earlier, by the ledger's times. */
  lemma RecencyFollowsLedger(s: Pool, run: seq<Action>, i: nat, j: nat)
    requires Shaped(s) && IsRun(s, run)
    ensures
      var recent := After(s, run).recent;
      && (forall p :: p in recent <==> Tally(LineOf(s, p), run, p, s.nextPage, s.now).Line?)
      && (i < j < |recent| ==>
          Tally(LineOf(s, recent[i]), run, recent[i], s.nextPage, s.now).Line? &&
          Tally(LineOf(s, recent[j]), run, recent[j], s.nextPage, s.now).Line? &&
          Tally(LineOf(s, recent[i]), run, recent[i], s.nextPage, s.now).used
            > Tally(LineOf(s, recent[j]), run, recent[j], s.nextPage, s.now).used)
  {
    hide After, IsRun, Tally;
    RunIsShaped(s, run);
    var t := After(s, run);
    forall p
      ensures p in t.recent <==> Tally(LineOf(s, p), run, p, s.nextPage, s.now).Line?
      ensures p in t.recent ==> Tally(LineOf(s, p), run, p, s.nextPage, s.now).used == t.frames[p].lastAccess
    {
      LedgerAgrees(s, run, p);
    }
    if i < j < |t.recent| {
      assert t.recent[i] in t.recent && t.recent[j] in t.recent;
    }
  }

  // ---------- The disk ----------

  /** A page is written to the disk exactly when it is marked and is flushed or leaves memory. */
  lemma DiskWrites(s: Pool, a: Action, p: PageId)
    requires Enabled(s, a)
    ensures OnDisk(Next(s, a), p) ==
      if p in s.frames && s.frames[p].dirty && (a == Evict(p) || a == Sync(p) || a.SyncAll? || a.DiscardAll?)
      then Some(s.frames[p].contents) else OnDisk(s, p)
  {
    hide Without;
  }
}
