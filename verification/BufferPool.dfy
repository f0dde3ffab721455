/** The buffer pool object: hash table of frames, recency list with its iterator map, clock hand. */
module BufferPooling {
  import opened Common
  import opened PoolState

  /** `Spins` stands for the eviction loop that never ends because no frame can be evicted. */
  datatype FetchResult = Page(contents: Contents) | NotFound | Spins

  ghost predicate Enumerates(order: seq<PageId>, frames: map<PageId, Frame>) {
    |order| == |frames| && forall p :: p in order <==> p in frames
  }

  /** What a fetch does to its page: a pin if it asked for one, a mark if it is for writing, beside
      those it had in memory; and the page is the most recent. */
  ghost predicate Fetched(s: Pool, t: Pool, p: PageId, mode: FetchMode) {
    && p in t.frames && t.recent != [] && t.recent[0] == p
    && t.frames[p].pins == (if p in s.frames then s.frames[p].pins else 0) + (if mode == Pin then 1 else 0)
    && (t.frames[p].dirty <==> mode == Write || (p in s.frames && s.frames[p].dirty))
  }

  lemma TouchFetches(s: Pool, p: PageId, mode: FetchMode)
    requires p in s.frames
    ensures Fetched(s, Touch(s, p, mode), p, mode)
  {}

  lemma LoadFetches(s: Pool, room: Pool, p: PageId, mode: FetchMode)
    requires p !in s.frames && p in room.disk
    ensures Fetched(s, Load(room, p, mode), p, mode)
  {}

  class BufferPool {
    var frames: map<PageId, Frame>
    var lruList: seq<PageId>
    /** The pages with an iterator into `lruList`. */
    var lruIterators: set<PageId>
    var disk: map<PageId, Contents>
    var poolSize: nat
    var strategy: Strategy
    var clockHand: nat
    var nextPageId: PageId
    var clock: nat

    function State(): Pool
      reads this
    {
      Pool(frames, lruList, disk, poolSize, nextPageId, clock)
    }

    /** Kept by every method, whatever clients do to the pages they were given. */
    ghost predicate Ok()
      reads this
    {
      Shaped(State()) && lruIterators == frames.Keys
    }

    /** No client change is outstanding that the dirty marks do not tell of. */
    ghost predicate Marked()
      reads this
    {
      CleanFramesMatchDisk(State())
    }

    constructor (size: nat, disk: map<PageId, Contents>, nextPageId: PageId)
      requires forall p :: p in disk ==> p < nextPageId
      requires nextPageId <= INVALID_PAGE_ID
      ensures Ok() && Marked() && frames == map[] && this.disk == disk && strategy == LRU
      ensures poolSize == if size < MAX_POOL_SIZE then size else MAX_POOL_SIZE
    {
      frames, lruList, lruIterators := map[], [], {};
      this.disk, this.nextPageId := disk, nextPageId;
      poolSize := if size < MAX_POOL_SIZE then size else MAX_POOL_SIZE;
      strategy, clockHand, clock := LRU, 0, 0;
    }

    method FetchPage(p: PageId, mode: FetchMode) returns (r: FetchResult, ghost victims: seq<PageId>)
      requires Ok()
      modifies this
      ensures Ok() && strategy == old(strategy)
      ensures old(Marked()) ==> Marked() && SameView(old(State()), State())
      ensures r.Page? ==> View(old(State()), p) == Some(r.contents) && p in frames && |frames| <= poolSize
      ensures r.NotFound? ==> View(old(State()), p) == None
      ensures r.Page? ==> Fetched(old(State()), State(), p, mode)
      ensures p in old(frames) ==> r.Page? && State() == Touch(old(State()), p, mode)
      ensures p !in old(frames) ==>
        && ProperVictims(old(State()), strategy, victims)
        && var room := DropAll(old(State()), victims);
           State() == if r.Page? && p in room.disk then Load(room, p, mode) else room
      ensures r.Spins? <==> p !in old(frames) && Stuck(old(State()), strategy, poolSize)
    {
      hide Shaped, Without, IsVictim, ProperVictims, DropAll, Drop, Stuck, Touch, Load, CleanFramesMatchDisk, Fetched;
      victims := [];
      if p in frames {
        TouchFetches(State(), p, mode);
        FetchResident(p, mode);
        return Page(frames[p].contents), victims;
      }
      var done;
      done, victims := EvictUntilBelow(poolSize);
      EvictionsRemove(old(State()), strategy, victims, p);
      EvictionsView(old(State()), strategy, victims, p);
      if !done {
        return Spins, victims;
      }
      if p !in disk {
        return NotFound, victims;
      }
      LoadFetches(old(State()), State(), p, mode);
      ReadPage(p, mode);
      r := Page(frames[p].contents);
    }

    /** The hit branch of `fetchPage`. */
    method FetchResident(p: PageId, mode: FetchMode)
      requires Ok() && p in frames
      modifies this`frames, this`lruList, this`lruIterators, this`clock
      ensures Ok() && State() == Touch(old(State()), p, mode) && SameView(old(State()), State())
      ensures old(Marked()) ==> Marked()
      ensures p in frames && frames[p].contents == old(frames)[p].contents && |frames| <= poolSize
    {
      hide Shaped, View, Without, CleanFramesMatchDisk;
      TouchIsShaped(State(), p, mode);
      RecentIsResident(State());
      var f := frames[p].(lastAccess := clock);
      if mode == Write {
        f := f.(dirty := true);
      }
      if mode == Pin {
        f := f.(pins := f.pins + 1);
      }
      frames := frames[p := f];
      UpdateLRU(p);
      clock := clock + 1;
      FitsPool(State());
    }

    /** The end of the miss branch of `fetchPage`: read the page into a new frame. */
    method ReadPage(p: PageId, mode: FetchMode)
      requires Ok() && p !in frames && p in disk && |frames| < poolSize
      modifies this`frames, this`lruList, this`lruIterators, this`clock
      ensures Ok() && State() == Load(old(State()), p, mode) && SameView(old(State()), State())
      ensures old(Marked()) ==> Marked()
      ensures p in frames && frames[p].contents == disk[p] && |frames| <= poolSize
    {
      hide Shaped, View, CleanFramesMatchDisk;
      LoadIsShaped(State(), p, mode);
      AddPage(p, OpenFrame(disk[p], mode, clock));
      FitsPool(State());
    }

    method AddPage(p: PageId, f: Frame)
      modifies this`frames, this`lruList, this`lruIterators, this`clock
      ensures State() == AddFrame(old(State()), p, f)
      ensures lruIterators == old(lruIterators) + {p}
    {
      frames := frames[p := f];
      lruList := [p] + lruList;
      lruIterators := lruIterators + {p};
      clock := clock + 1;
    }

    method CreateNewPage(contents: Contents) returns (p: PageId, created: bool, ghost victims: seq<PageId>)
      requires Ok() && nextPageId < INVALID_PAGE_ID
      modifies this
      ensures Ok() && p == old(nextPageId) && View(old(State()), p) == None && strategy == old(strategy)
      ensures ProperVictims(old(State()), strategy, victims)
      ensures created ==> State() == Create(DropAll(old(State()), victims), contents)
      ensures old(Marked()) ==> Marked()
      ensures created && old(Marked()) ==>
        forall q :: View(State(), q) == if q == p then Some(contents) else View(old(State()), q)
      ensures !created <==> Stuck(old(State()), strategy, poolSize)
    {
      hide Shaped, View, SameView, IsVictim, ProperVictims, DropAll, Drop, Stuck, Create, CleanFramesMatchDisk;
      CounterIsShaped(State());
      p := nextPageId;
      created, victims := EvictUntilBelow(poolSize);
      KeepsCounter(old(State()), victims);
      if !created {
        return;
      }
      ghost var room := State();
      InstallNewPage(contents);
      if old(Marked()) {
        CreateAfterEviction(old(State()), room, contents);
      }
    }

    /** The end of `createNewPage`, once there is room. */
    method InstallNewPage(contents: Contents)
      requires Ok() && |frames| < poolSize && nextPageId < INVALID_PAGE_ID
      modifies this`frames, this`lruList, this`lruIterators, this`clock, this`nextPageId
      ensures Ok() && State() == Create(old(State()), contents)
      ensures old(Marked()) ==> Marked()
    {
      hide Shaped, View, AddFrame, CleanFramesMatchDisk;
      CreateIsShaped(State(), contents);
      CreateAddsPage(State(), contents);
      var p := nextPageId;
      nextPageId := nextPageId + 1;
      AddPage(p, Frame(contents, 0, true, clock));
    }

    method UnpinPage(p: PageId, dirty: bool)
      requires Ok()
      modifies this`frames
      ensures Ok() && State() == Unpin(old(State()), p, dirty)
      ensures old(Marked()) ==> Marked()
    {
      hide Shaped, CleanFramesMatchDisk;
      UnpinIsShaped(State(), p, dirty);
      if p in frames {
        var f := frames[p];
        if f.pins > 0 {
          f := f.(pins := f.pins - 1);
        }
        if dirty {
          f := f.(dirty := true);
        }
        frames := frames[p := f];
      }
    }

    method FlushPage(p: PageId)
      requires Ok()
      modifies this`frames, this`disk
      ensures Ok() && State() == Flush(old(State()), p)
      ensures old(Marked()) ==> Marked()
    {
      hide Shaped, View, CleanFramesMatchDisk;
      FlushIsShaped(State(), p);
      if p in frames && frames[p].dirty {
        disk := disk[p := frames[p].contents];
        frames := frames[p := frames[p].(dirty := false)];
      }
    }

    method FlushAll()
      requires Ok()
      modifies this`frames, this`disk
      ensures Ok() && State() == PoolState.FlushAll(old(State()))
      ensures SameView(old(State()), State()) && (old(Marked()) <==> Marked())
      ensures (forall p :: OnDisk(State(), p) == View(old(State()), p)) <==> old(Marked())
    {
      hide Shaped, View, OnDisk, CleanFramesMatchDisk;
      FlushAllIsShaped(State());
      FlushAllPersistsView(State());
      FlushExceptNone(State());
      FlushExceptAll(State());
      var pending := frames.Keys;
      while pending != {}
        invariant pending <= frames.Keys
        invariant State() == FlushExcept(old(State()), pending)
        decreases pending
      {
        var p :| p in pending;
        FlushOneMore(old(State()), pending, p);
        if frames[p].dirty {
          disk := disk[p := frames[p].contents];
          frames := frames[p := frames[p].(dirty := false)];
        }
        pending := pending - {p};
      }
    }

    method DiscardPage(p: PageId)
      requires Ok()
      modifies this`frames, this`disk, this`lruList, this`lruIterators
      ensures Ok() && State() == if p in old(frames) then Drop(old(State()), p) else old(State())
      ensures SameView(old(State()), State()) <==> !old(Unmarked(State(), p))
    {
      hide Shaped, Drop, View, Unmarked;
      NotResidentIsMarked(State(), p);
      if p in frames {
        DropKeepsViewIff(State(), p);
        Forget(p);
      }
    }

    method DiscardAll()
      requires Ok()
      modifies this
      ensures Ok() && State() == Clear(PoolState.FlushAll(old(State())))
      ensures SameView(old(State()), State()) <==> old(Marked())
    {
      hide Shaped, View, OnDisk, CleanFramesMatchDisk;
      FlushAll();
      ClearIsShaped(State());
      frames, lruList, lruIterators := map[], [], {};
    }

    /** Shrinking evicts down to the new size; with too many pinned frames the loop never ends. */
    method SetPoolSize(newSize: nat) returns (done: bool, ghost victims: seq<PageId>)
      requires Ok()
      modifies this
      ensures Ok() && strategy == old(strategy)
      ensures ProperVictims(old(State()), strategy, victims)
      ensures SameView(old(State()), State()) <==> forall v :: v in victims ==> !Unmarked(old(State()), v)
      ensures
        var size := if newSize < MAX_POOL_SIZE then newSize else MAX_POOL_SIZE;
        && State() == DropAll(old(State()), victims).(size := if done then size else old(poolSize))
        && (done <==> !Stuck(old(State()), strategy, size + 1))
    {
      hide Shaped, IsVictim, ProperVictims, DropAll, Drop, Stuck, Unmarked, CleanFramesMatchDisk;
      var size := if newSize < MAX_POOL_SIZE then newSize else MAX_POOL_SIZE;
      done, victims := EvictUntilBelow(size + 1);
      if done {
        FitsPool(State());
        ResizeIsShaped(State(), size);
        poolSize := size;
      } else {
        KeepsCounter(old(State()), victims);
      }
    }

    // ---------- Eviction ----------

    /** `while (frames_.size() >= limit) evictPage();`, stopping once an eviction changes nothing. */
    method EvictUntilBelow(limit: nat) returns (done: bool, ghost victims: seq<PageId>)
      requires Ok()
      modifies this`frames, this`disk, this`lruList, this`lruIterators, this`clockHand
      ensures Ok() && (old(Marked()) ==> Marked() && SameView(old(State()), State()))
      ensures ProperVictims(old(State()), strategy, victims) && State() == DropAll(old(State()), victims)
      ensures SameView(old(State()), State()) <==> forall v :: v in victims ==> !Unmarked(old(State()), v)
      ensures done ==> |frames| < limit && |victims| == if |old(frames)| < limit then 0 else |old(frames)| - limit + 1
      ensures done <==> !Stuck(old(State()), strategy, limit)
    {
      hide Shaped, View, IsVictim, HasCandidate, Drop, Stuck, Unmarked, CleanFramesMatchDisk, DropAll, ProperVictims;
      ghost var s := State();
      victims := [];
      NoVictims(s, strategy);
      CleanMeansNoneUnmarked(s);
      while |frames| >= limit
        invariant Ok()
        invariant ProperVictims(s, strategy, victims) && State() == DropAll(s, victims)
        invariant |frames| == |s.frames| - |victims|
        invariant victims != [] ==> |frames| >= limit - 1
        decreases |frames|
      {
        ghost var before := State();
        var v := EvictPage();
        if v == INVALID_PAGE_ID {
          NoCandidateIsStuck(s, strategy, victims, limit);
          EvictionsKeepView(s, strategy, victims);
          return false, victims;
        }
        DropAllAppend(s, strategy, victims, v);
        DropIsShaped(before, v);
        victims := victims + [v];
      }
      RoomIsNotStuck(s, strategy, victims, limit);
      EvictionsKeepView(s, strategy, victims);
      done := true;
    }

    /** Evicts one page; INVALID_PAGE_ID when there was none to evict. */
    method EvictPage() returns (v: PageId)
      requires Ok()
      modifies this`frames, this`disk, this`lruList, this`lruIterators, this`clockHand
      ensures Ok()
      ensures v == INVALID_PAGE_ID <==> !HasCandidate(old(State()), strategy)
      ensures v == INVALID_PAGE_ID ==> State() == old(State())
      ensures v != INVALID_PAGE_ID ==>
        IsVictim(old(State()), strategy, v) && v in old(frames) && State() == Drop(old(State()), v)
    {
      hide HasCandidate, Shaped;
      v := SelectVictim();
      if v != INVALID_PAGE_ID {
        Forget(v);
      }
    }

    method Forget(p: PageId)
      requires Ok() && p in frames
      modifies this`frames, this`disk, this`lruList, this`lruIterators
      ensures Ok() && State() == Drop(old(State()), p)
    {
      hide Shaped;
      DropIsShaped(State(), p);
      if frames[p].dirty {
        disk := disk[p := frames[p].contents];
      }
      lruList := Without(lruList, p);
      lruIterators := lruIterators - {p};
      frames := frames - {p};
    }

    method UpdateLRU(p: PageId)
      requires lruIterators == set q | q in lruList
      modifies this`lruList, this`lruIterators
      ensures lruList == [p] + Without(old(lruList), p)
      ensures lruIterators == old(lruIterators) + {p}
    {
      if p in lruIterators {
        lruList := Without(lruList, p);
      } else {
        WithoutAbsent(lruList, p);
      }
      lruList := [p] + lruList;
      lruIterators := lruIterators + {p};
    }

    /** The victim of the current strategy; none exactly when no frame qualifies. */
    method SelectVictim() returns (v: PageId)
      requires Ok()
      modifies this`clockHand
      ensures v == INVALID_PAGE_ID <==> !HasCandidate(State(), strategy)
      ensures v != INVALID_PAGE_ID ==> IsVictim(State(), strategy, v)
    {
      match strategy
      case LRU =>
        v := SelectVictimLRU();
      case CLOCK =>
        var order := IterationOrder();
        v := SelectVictimClock(order);
      case FIFO =>
        v := INVALID_PAGE_ID;
        if lruList != [] {
          v := lruList[|lruList| - 1];
          assert v in lruList;
        }
    }

    method SelectVictimLRU() returns (v: PageId)
      requires Ok()
      ensures v == INVALID_PAGE_ID <==> !HasCandidate(State(), LRU)
      ensures v != INVALID_PAGE_ID ==> IsVictim(State(), LRU, v)
    {
      var i := |lruList|;
      while i > 0
        invariant 0 <= i <= |lruList|
        invariant forall k :: i <= k < |lruList| ==> Pinned(State(), lruList[k])
      {
        i := i - 1;
        v := lruList[i];
        assert v in lruList;
        if v in frames && frames[v].pins == 0 {
          OldestUnpinned(State(), i);
          return;
        }
      }
      v := INVALID_PAGE_ID;
      assert forall p :: p in frames ==> p in lruList;
    }

    /** The order in which the hash table happens to list its frames. */
    method IterationOrder() returns (order: seq<PageId>)
      ensures Enumerates(order, frames)
    {
      order := [];
      var pending := frames.Keys;
      while pending != {}
        invariant pending <= frames.Keys && |order| + |pending| == |frames.Keys|
        invariant forall p :: p in order <==> p in frames && p !in pending
        decreases pending
      {
        var p :| p in pending;
        order := order + [p];
        pending := pending - {p};
      }
    }

    /** The clock scan: two rounds over the table, starting at the hand. */
    method SelectVictimClock(order: seq<PageId>) returns (v: PageId)
      requires Enumerates(order, frames) && INVALID_PAGE_ID !in frames
      modifies this`clockHand
      ensures v == INVALID_PAGE_ID <==> !HasCandidate(State(), CLOCK)
      ensures v != INVALID_PAGE_ID ==> IsVictim(State(), CLOCK, v) && clockHand < |frames|
      ensures v != INVALID_PAGE_ID ==> exists i: nat ::
        NextFromHand(order, frames, old(clockHand), i) && order[i] == v && clockHand == (i + 1) % |order|
    {
      hide AllPinned, Looking, NextFromHand;
      var n := |order|;
      ghost var start := if clockHand >= n then 0 else clockHand;
      LookingStarts(order, frames, clockHand);
      var attempts := 0;
      while attempts < n * 2
        invariant attempts <= n * 2
        invariant Looking(order, frames, start, attempts, clockHand)
      {
        ghost var hand := clockHand;
        if clockHand >= n {
          clockHand := 0;
        }
        v := order[clockHand];
        assert v in order;
        if frames[v].pins == 0 {
          LookingFinds(order, frames, old(clockHand), attempts, hand);
          clockHand := (clockHand + 1) % n;
          return;
        }
        LookingGoesOn(order, frames, start, attempts, hand);
        clockHand := clockHand + 1;
        attempts := attempts + 1;
      }
      v := INVALID_PAGE_ID;
      LookingEnds(order, frames, start, clockHand);
      assert forall p :: p in frames ==> p in order;
    }
  }

  ghost predicate AllPinned(order: seq<PageId>, frames: map<PageId, Frame>, lo: nat, hi: nat) {
    hi <= |order| && forall k :: lo <= k < hi ==> order[k] in frames && frames[order[k]].pins > 0
  }

  /** Position `i` is the first with an unpinned frame from the hand on, going round; a hand past the
      end starts at the beginning. */
  ghost predicate NextFromHand(order: seq<PageId>, frames: map<PageId, Frame>, hand: nat, i: nat) {
    var start := if hand >= |order| then 0 else hand;
    && i < |order| && order[i] in frames && frames[order[i]].pins == 0
    && if start <= i then AllPinned(order, frames, start, i)
       else AllPinned(order, frames, start, |order|) && AllPinned(order, frames, 0, i)
  }

  /** What `attempts` failed looks from `start` have covered: a stretch that has not wrapped
      round yet, one that has, or the whole table. */
  ghost predicate Scanned(order: seq<PageId>, frames: map<PageId, Frame>, start: nat, attempts: nat, hand: nat) {
    || (hand == start + attempts && AllPinned(order, frames, start, hand))
    || (hand == start + attempts - |order| && AllPinned(order, frames, start, |order|)
        && AllPinned(order, frames, 0, hand))
    || AllPinned(order, frames, 0, |order|)
  }

  /** The state of the scan after `attempts` failed looks. */
  ghost predicate Looking(order: seq<PageId>, frames: map<PageId, Frame>, start: nat, attempts: nat, hand: nat) {
    && (attempts == 0 ==> start == if hand >= |order| then 0 else hand)
    && (attempts > 0 ==> hand <= |order| && Scanned(order, frames, start, attempts, hand))
    && (|order| > 0 ==> start < |order|)
  }

  lemma LookingStarts(order: seq<PageId>, frames: map<PageId, Frame>, hand: nat)
    ensures Looking(order, frames, if hand >= |order| then 0 else hand, 0, hand)
  {}

  lemma LookingGoesOn(order: seq<PageId>, frames: map<PageId, Frame>, start: nat, attempts: nat, hand: nat)
    requires Looking(order, frames, start, attempts, hand) && attempts < |order| * 2
    requires var at := if hand >= |order| then 0 else hand;
      at < |order| && order[at] in frames && frames[order[at]].pins > 0
    ensures Looking(order, frames, start, attempts + 1, (if hand >= |order| then 0 else hand) + 1)
  {}

  lemma LookingFinds(order: seq<PageId>, frames: map<PageId, Frame>, first: nat, attempts: nat, hand: nat)
    requires Looking(order, frames, if first >= |order| then 0 else first, attempts, hand)
    requires var at := if hand >= |order| then 0 else hand;
      at < |order| && order[at] in frames && frames[order[at]].pins == 0
    ensures NextFromHand(order, frames, first, if hand >= |order| then 0 else hand)
  {}

  lemma LookingEnds(order: seq<PageId>, frames: map<PageId, Frame>, start: nat, hand: nat)
    requires Looking(order, frames, start, |order| * 2, hand)
    ensures forall p :: p in order ==> p in frames && frames[p].pins > 0
  {}

  /** `flushAll` with the pages in `pending` still to come. */
  ghost function FlushExcept(s: Pool, pending: set<PageId>): Pool {
    s.(disk := s.disk + (map p | p in s.frames && p !in pending && s.frames[p].dirty :: s.frames[p].contents),
       frames := map p | p in s.frames :: if p in pending then s.frames[p] else s.frames[p].(dirty := false))
  }

  lemma FlushExceptNone(s: Pool)
    ensures FlushExcept(s, {}) == PoolState.FlushAll(s)
  {
    assert FlushExcept(s, {}).disk == PoolState.FlushAll(s).disk;
  }

  lemma FlushExceptAll(s: Pool)
    ensures FlushExcept(s, s.frames.Keys) == s
  {
    assert FlushExcept(s, s.frames.Keys).disk == s.disk;
    assert FlushExcept(s, s.frames.Keys).frames == s.frames;
  }

  lemma FlushOneMore(s: Pool, pending: set<PageId>, p: PageId)
    requires p in pending && p in s.frames
    ensures p in FlushExcept(s, pending).frames
    ensures FlushExcept(s, pending - {p}) == Flush(FlushExcept(s, pending), p)
  {
    FlushOneMoreDisk(s, pending, p);
    assert FlushExcept(s, pending - {p}).frames == Flush(FlushExcept(s, pending), p).frames;
  }

  lemma FlushOneMoreDisk(s: Pool, pending: set<PageId>, p: PageId)
    requires p in pending && p in s.frames
    ensures FlushExcept(s, pending - {p}).disk == Flush(FlushExcept(s, pending), p).disk
  {}

  /** No page can be evicted before the frame count falls below `limit`. */
  ghost predicate Stuck(s: Pool, strategy: Strategy, limit: nat) {
    if strategy == FIFO then limit == 0 else |PinnedPages(s)| >= limit
  }

  /** In the recency list, the last unpinned page has the oldest access of all unpinned pages. */
  lemma OldestUnpinned(s: Pool, i: nat)
    requires RecencyExact(s) && i < |s.recent| && !Pinned(s, s.recent[i])
    requires forall k :: i < k < |s.recent| ==> Pinned(s, s.recent[k])
    ensures IsVictim(s, LRU, s.recent[i])
  {
    assert s.recent[i] in s.recent;
    forall p | p in s.frames && !Pinned(s, p)
      ensures s.frames[s.recent[i]].lastAccess <= s.frames[p].lastAccess
    {
      assert p in s.recent;
    }
  }

  lemma RecentIsResident(s: Pool)
    requires Shaped(s)
    ensures (set p | p in s.recent) == s.frames.Keys
    ensures INVALID_PAGE_ID !in s.frames
  {}

  lemma CreateAfterEviction(s: Pool, room: Pool, contents: Contents)
    requires SameView(s, room) && Shaped(room) && |room.frames| < room.size && room.nextPage < INVALID_PAGE_ID
    ensures forall q :: View(Create(room, contents), q) == if q == room.nextPage then Some(contents) else View(s, q)
  {
    hide Shaped, View;
    CreateIsShaped(room, contents);
  }

  lemma CreateAddsPage(s: Pool, contents: Contents)
    ensures Create(s, contents).frames.Keys == s.frames.Keys + {s.nextPage}
  {}

  lemma NotResidentIsMarked(s: Pool, p: PageId)
    ensures Unmarked(s, p) ==> p in s.frames
  {}

  lemma NoVictims(s: Pool, strategy: Strategy)
    ensures ProperVictims(s, strategy, []) && DropAll(s, []) == s
  {}

  lemma FitsPool(s: Pool)
    requires Shaped(s)
    ensures |s.frames| <= s.size <= MAX_POOL_SIZE
  {}

  lemma {:induction false} KeepsCounter(s: Pool, victims: seq<PageId>)
    ensures DropAll(s, victims).nextPage == s.nextPage && DropAll(s, victims).size == s.size
    decreases victims
  {
    if victims != [] && victims[0] in s.frames {
      KeepsCounter(Drop(s, victims[0]), victims[1..]);
    }
  }

  lemma PinsSurviveEvictions(s: Pool, strategy: Strategy, victims: seq<PageId>)
    requires ProperVictims(s, strategy, victims) && strategy != FIFO
    ensures PinnedPages(DropAll(s, victims)) == PinnedPages(s)
  {
    hide ProperVictims, DropAll;
    forall p
      ensures Pinned(DropAll(s, victims), p) <==> Pinned(s, p)
    {
      EvictionsRemove(s, strategy, victims, p);
    }
  }

  lemma NoCandidateIsStuck(s: Pool, strategy: Strategy, victims: seq<PageId>, limit: nat)
    requires ProperVictims(s, strategy, victims)
    requires !HasCandidate(DropAll(s, victims), strategy) && |DropAll(s, victims).frames| >= limit
    ensures Stuck(s, strategy, limit)
  {
    hide ProperVictims, DropAll;
    var t := DropAll(s, victims);
    if strategy == FIFO {
      assert t.frames.Keys == {};
    } else {
      PinsSurviveEvictions(s, strategy, victims);
      assert PinnedPages(t) == t.frames.Keys;
    }
  }

  lemma RoomIsNotStuck(s: Pool, strategy: Strategy, victims: seq<PageId>, limit: nat)
    requires ProperVictims(s, strategy, victims) && |DropAll(s, victims).frames| < limit
    ensures !Stuck(s, strategy, limit)
  {
    hide ProperVictims, DropAll;
    if strategy != FIFO {
      PinsSurviveEvictions(s, strategy, victims);
      SubsetSize(PinnedPages(DropAll(s, victims)), DropAll(s, victims).frames.Keys);
    }
  }
}
