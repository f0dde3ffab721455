/** Reading the log back: a transaction's chain of records, the last checkpoint, and the records to redo. */
module Recovery {
  import opened Bytes
  import opened LogCodec
  import opened LogState

  // ---------- Ascending traversal ----------

  /** The records of an in-memory log with LSN in (lo, hi], ascending. */
  function Ascending(records: map<nat, LogRecord>, lo: nat, hi: nat): seq<LogRecord>
    decreases hi
  {
    if hi <= lo then []
    else Ascending(records, lo, hi - 1) + if hi in records then [records[hi]] else []
  }

  function LogsSince(s: Log, lsn: nat): seq<LogRecord> {
    Ascending(s.records, lsn, |s.history|)
  }

  /** The records of one transaction, in order. */
  function OfTransaction(rs: seq<LogRecord>, tx: nat): seq<LogRecord> {
    if rs == [] then []
    else OfTransaction(rs[..|rs| - 1], tx) + if rs[|rs| - 1].tx == tx then [rs[|rs| - 1]] else []
  }

  function LogsForTransaction(s: Log, tx: nat): seq<LogRecord> {
    OfTransaction(Ascending(s.records, 0, |s.history|), tx)
  }

  lemma {:induction false} AscendingIsSlice(s: Log, lo: nat, hi: nat)
    requires Retains(s) && s.cut <= lo + 1 && lo <= hi <= |s.history|
    ensures Ascending(s.records, lo, hi) == s.history[lo..hi]
  {
    if lo < hi {
      AscendingIsSlice(s, lo, hi - 1);
      assert s.history[lo..hi] == s.history[lo..hi - 1] + [s.history[hi - 1]];
    }
  }

  // ---------- Back chains ----------

  /** Following the previous-LSN links of the in-memory log until one leads nowhere. */
  function BackChain(records: map<nat, LogRecord>, lsn: nat): seq<LogRecord>
    decreases lsn
  {
    if lsn !in records then []
    else [records[lsn]] + if records[lsn].prevLsn < lsn then BackChain(records, records[lsn].prevLsn) else []
  }

  /** The chain is a list of links: each record is the one its predecessor's link names, the LSNs
      strictly decrease, and the walk ends where a link leads nowhere. */
  ghost predicate FollowsLinks(records: map<nat, LogRecord>, chain: seq<LogRecord>) {
    && (forall i :: 0 <= i < |chain| - 1 ==> chain[i + 1].lsn == chain[i].prevLsn < chain[i].lsn)
    && (chain != [] ==> chain[|chain| - 1].prevLsn !in records)
  }

  lemma LinkDescends(s: Log, lsn: nat)
    requires Valid(s) && FirstLinksZero(s) && lsn in s.records
    ensures s.records[lsn].lsn == lsn && s.records[lsn].prevLsn < lsn
  {
    hide Conserves, LastOf;
    assert s.history[lsn - 1].prevLsn == LastOf(s.history[..lsn - 1], s.history[lsn - 1].tx) < lsn;
  }

  /** LSNs strictly decrease along a chain, whose walk never stops for another reason than a link
      to a record that is not there. */
  lemma {:induction false} ChainDescends(s: Log, lsn: nat)
    requires Valid(s) && FirstLinksZero(s)
    ensures FollowsLinks(s.records, BackChain(s.records, lsn))
    ensures lsn in s.records ==> BackChain(s.records, lsn) != [] && BackChain(s.records, lsn)[0].lsn == lsn
    decreases lsn
  {
    hide Valid, FirstLinksZero;
    if lsn in s.records {
      LinkDescends(s, lsn);
      ChainDescends(s, s.records[lsn].prevLsn);
    }
  }

  function Reverse(rs: seq<LogRecord>): seq<LogRecord> {
    if rs == [] then [] else [rs[|rs| - 1]] + Reverse(rs[..|rs| - 1])
  }

  /** The callers leave the previous LSN of a transaction's first record at zero. */
  ghost predicate FirstLinksZero(s: Log) {
    forall i :: 0 <= i < |s.history| && LastOf(s.history[..i], s.history[i].tx) == 0 ==> s.history[i].prevLsn == 0
  }

  lemma LastOfPrefix(h: seq<LogRecord>, n: nat, tx: nat)
    requires 0 < n <= |h|
    ensures LastOf(h[..n], tx) == if h[n - 1].tx == tx then n else LastOf(h[..n - 1], tx)
  {
    assert h[..n][..n - 1] == h[..n - 1];
  }

  lemma OfTransactionStep(rs: seq<LogRecord>, r: LogRecord, tx: nat)
    ensures OfTransaction(rs + [r], tx) == OfTransaction(rs, tx) + if r.tx == tx then [r] else []
  {
    assert (rs + [r])[..|rs|] == rs;
  }

  lemma ReverseStep(rs: seq<LogRecord>, r: LogRecord)
    ensures Reverse(rs + [r]) == [r] + Reverse(rs)
  {
    assert (rs + [r])[..|rs|] == rs;
  }

  /** Back-chain completeness up to LSN `n`. */
  lemma {:induction false} ChainCovers(s: Log, tx: nat, n: nat)
    requires Valid(s) && FirstLinksZero(s) && n <= |s.history|
    ensures BackChain(s.records, LastOf(s.history[..n], tx))
      == Reverse(OfTransaction(Ascending(s.records, 0, n), tx))
  {
    hide LastOf, Conserves, OfTransaction, Reverse, BackChain;
    if n == 0 {
      NothingBelowZero(s, tx);
    } else {
      ChainCovers(s, tx, n - 1);
      LastOfPrefix(s.history, n, tx);
      var before := Ascending(s.records, 0, n - 1);
      if n in s.records {
        OfTransactionStep(before, s.records[n], tx);
        if s.history[n - 1].tx == tx {
          ReverseStep(OfTransaction(before, tx), s.records[n]);
          ChainStep(s, n);
        } else {
          assert OfTransaction(before, tx) + [] == OfTransaction(before, tx);
        }
      } else {
        assert Ascending(s.records, 0, n) == before;
        ChainBelowCut(s, n);
        AscendingBelowCut(s, n - 1);
        ReverseNothing(tx);
      }
    }
  }

  lemma NothingBelowZero(s: Log, tx: nat)
    requires Retains(s)
    ensures BackChain(s.records, LastOf(s.history[..0], tx)) == []
    ensures Reverse(OfTransaction(Ascending(s.records, 0, 0), tx)) == []
  {}

  lemma ChainStep(s: Log, n: nat)
    requires Valid(s) && FirstLinksZero(s) && n in s.records
    ensures BackChain(s.records, n)
      == [s.records[n]] + BackChain(s.records, LastOf(s.history[..n - 1], s.history[n - 1].tx))
  {
    hide Conserves, LastOf;
    assert s.history[n - 1].prevLsn == LastOf(s.history[..n - 1], s.history[n - 1].tx) < n;
  }

  lemma ChainBelowCut(s: Log, n: nat)
    requires Retains(s) && n <= |s.history| && n !in s.records
    ensures BackChain(s.records, n) == []
  {}

  lemma {:induction false} AscendingBelowCut(s: Log, n: nat)
    requires Retains(s) && n < |s.history| && n + 1 !in s.records
    ensures Ascending(s.records, 0, n) == []
  {
    if n > 0 {
      AscendingBelowCut(s, n - 1);
    }
  }

  lemma ReverseNothing(tx: nat)
    ensures Reverse(OfTransaction([], tx)) == []
  {}

  /** Back-chain completeness: from a transaction's last LSN, the links visit exactly its retained
      records, in the reverse of their LSN order and with strictly decreasing LSNs. */
  lemma BackChainIsComplete(s: Log, tx: nat)
    requires Valid(s) && FirstLinksZero(s)
    ensures BackChain(s.records, if tx in s.lastOfTx then s.lastOfTx[tx] else 0) == Reverse(LogsForTransaction(s, tx))
    ensures FollowsLinks(s.records, BackChain(s.records, if tx in s.lastOfTx then s.lastOfTx[tx] else 0))
  {
    hide LastOf, Conserves, OfTransaction, Reverse, BackChain, Ascending, FollowsLinks;
    ChainDescends(s, if tx in s.lastOfTx then s.lastOfTx[tx] else 0);
    ChainCovers(s, tx, |s.history|);
    assert s.history[..|s.history|] == s.history;
  }

  ghost predicate CallersLeaveLinksZero(run: seq<Action>) {
    forall i :: 0 <= i < |run| && run[i].DoAppend? ==> run[i].record.prevLsn == 0
  }

  lemma StepKeepsFirstLinks(s: Log, a: Action)
    requires Valid(s) && Enabled(s, a) && FirstLinksZero(s)
    requires a.DoAppend? ==> a.record.prevLsn == 0
    ensures FirstLinksZero(Next(s, a))
  {
    hide LastOf, Conserves, Encode, Retains;
    var h := Next(s, a).history;
    forall i | 0 <= i < |h| && LastOf(h[..i], h[i].tx) == 0
      ensures h[i].prevLsn == 0
    {
      assert h[..i] == s.history[..i];
      assert s.history[..|s.history|] == s.history;
    }
  }

  /** In every run from an empty log whose callers leave the links at zero, each transaction's
      chain is complete. */
  lemma {:induction false} BackChainsOverRuns(s: Log, run: seq<Action>, tx: nat)
    requires Valid(s) && IsRun(s, run) && CallersLeaveLinksZero(run) && FirstLinksZero(s)
    ensures FirstLinksZero(After(s, run))
    ensures var t := After(s, run);
      BackChain(t.records, if tx in t.lastOfTx then t.lastOfTx[tx] else 0) == Reverse(LogsForTransaction(t, tx))
    decreases run
  {
    hide Valid, Next, Enabled, FirstLinksZero, BackChain, Reverse, LogsForTransaction;
    if run == [] {
      BackChainIsComplete(s, tx);
    } else {
      StepIsValid(s, run[0]);
      StepKeepsFirstLinks(s, run[0]);
      assert CallersLeaveLinksZero(run[1..]) by {
        assert forall i :: 0 <= i < |run[1..]| ==> run[1..][i] == run[i + 1];
      }
      BackChainsOverRuns(Next(s, run[0]), run[1..], tx);
    }
  }

  // ---------- Checkpoints and redo ----------

  /** LSN of the last checkpoint in a history, 0 if there is none. */
  function LastCheckpoint(h: seq<LogRecord>): (l: nat)
    ensures l <= |h|
    ensures l > 0 ==> h[l - 1].kind == KIND_CHECKPOINT
    ensures forall i :: l <= i < |h| ==> h[i].kind != KIND_CHECKPOINT
  {
    if h == [] then 0 else if h[|h| - 1].kind == KIND_CHECKPOINT then |h| else LastCheckpoint(h[..|h| - 1])
  }

  /** The search of the in-memory log from its highest LSN down. */
  function FindLastCheckpoint(records: map<nat, LogRecord>, hi: nat): (l: nat)
    ensures l <= hi
    ensures l > 0 ==> l in records && records[l].kind == KIND_CHECKPOINT
    ensures forall k :: l < k <= hi && k in records ==> records[k].kind != KIND_CHECKPOINT
  {
    if hi == 0 || (hi in records && records[hi].kind == KIND_CHECKPOINT) then hi
    else FindLastCheckpoint(records, hi - 1)
  }

  predicate IsData(r: LogRecord) {
    r.kind == KIND_INSERT || r.kind == KIND_UPDATE || r.kind == KIND_DELETE
  }

  predicate Commits(logs: seq<LogRecord>, tx: nat) {
    exists i :: 0 <= i < |logs| && logs[i].kind == KIND_COMMIT && logs[i].tx == tx
  }

  /** The records of `rs` to redo, when `logs` decides which transactions committed. */
  function Selected(rs: seq<LogRecord>, logs: seq<LogRecord>): seq<LogRecord> {
    if rs == [] then []
    else
      var last := rs[|rs| - 1];
      Selected(rs[..|rs| - 1], logs) + if Commits(logs, last.tx) && IsData(last) then [last] else []
  }

  /** The records redone from a list: the data records of the transactions that commit in it. */
  function Redo(logs: seq<LogRecord>): seq<LogRecord> {
    Selected(logs, logs)
  }

  /** All data records of one transaction, in order. */
  function DataOf(rs: seq<LogRecord>, tx: nat): seq<LogRecord> {
    if rs == [] then []
    else DataOf(rs[..|rs| - 1], tx) + if rs[|rs| - 1].tx == tx && IsData(rs[|rs| - 1]) then [rs[|rs| - 1]] else []
  }

  /** Recovery on the in-memory log. */
  function RecoveredRedo(s: Log): seq<LogRecord> {
    var c := FindLastCheckpoint(s.records, |s.history|);
    if c == 0 then [] else Redo(LogsSince(s, c))
  }

  /** Recovery as it would be on the whole history. */
  function FullRedo(h: seq<LogRecord>): seq<LogRecord> {
    var c := LastCheckpoint(h);
    if c == 0 then [] else Redo(h[c..])
  }

  /** Truncation only ever went up to a checkpoint. */
  ghost predicate CutAtCheckpoint(s: Log) {
    s.cut > 1 ==> s.cut <= |s.history| && s.history[s.cut - 1].kind == KIND_CHECKPOINT
  }

  /** Truncation at checkpoints is invisible to redo. */
  lemma RedoIgnoresTruncation(s: Log)
    requires Retains(s) && CutAtCheckpoint(s)
    ensures FindLastCheckpoint(s.records, |s.history|) == LastCheckpoint(s.history)
    ensures RecoveredRedo(s) == FullRedo(s.history)
  {
    hide Redo, Retains, CutAtCheckpoint, LastCheckpoint, FindLastCheckpoint;
    CheckpointIsKept(s);
    var c := LastCheckpoint(s.history);
    if c > 0 {
      AscendingIsSlice(s, c, |s.history|);
      assert s.history[c..|s.history|] == s.history[c..];
    }
  }

  /** The last checkpoint of the history is retained, and is what the search finds. */
  lemma CheckpointIsKept(s: Log)
    requires Retains(s) && CutAtCheckpoint(s)
    ensures FindLastCheckpoint(s.records, |s.history|) == LastCheckpoint(s.history)
    ensures LastCheckpoint(s.history) > 0 ==> s.cut <= LastCheckpoint(s.history) + 1
  {
    hide LastCheckpoint, FindLastCheckpoint;
    var c, f := LastCheckpoint(s.history), FindLastCheckpoint(s.records, |s.history|);
    assert c >= s.cut || s.cut <= 1;
    assert c > 0 ==> c in s.records;
  }

  /** Truncating anywhere keeps what recovery redoes exactly when the cut is not past the last
      checkpoint; past it, recovery finds no checkpoint and redoes nothing. */
  lemma TruncationKeepsRedoUpToCheckpoint(s: Log, lsn: nat)
    requires Retains(s) && CutInHistory(s) && CutAtCheckpoint(s) && lsn > 0
    ensures RecoveredRedo(Truncate(s, lsn)) == if lsn <= LastCheckpoint(s.history) then RecoveredRedo(s) else []
  {
    hide Redo;
    var t := Truncate(s, lsn);
    var c := LastCheckpoint(s.history);
    TruncateRetains(s, lsn);
    RedoIgnoresTruncation(s);
    assert c >= s.cut || s.cut <= 1;
    if lsn <= c {
      assert FindLastCheckpoint(t.records, |t.history|) == c by {
        assert c in t.records;
      }
      AscendingIsSlice(t, c, |s.history|);
      AscendingIsSlice(s, c, |s.history|);
    }
  }

  lemma {:induction false} SelectedOfTransaction(rs: seq<LogRecord>, logs: seq<LogRecord>, tx: nat)
    ensures OfTransaction(Selected(rs, logs), tx) == if Commits(logs, tx) then DataOf(rs, tx) else []
  {
    hide Commits, IsData;
    if rs != [] {
      var front, last := rs[..|rs| - 1], rs[|rs| - 1];
      SelectedOfTransaction(front, logs, tx);
      if Commits(logs, last.tx) && IsData(last) {
        OfTransactionStep(Selected(front, logs), last, tx);
      } else {
        assert Selected(front, logs) + [] == Selected(front, logs);
      }
    }
  }

  /** Each transaction is redone entirely or not at all: all its data records after the checkpoint,
      in order, if it committed after it, and none otherwise. */
  lemma RedoIsAllOrNothing(logs: seq<LogRecord>, tx: nat)
    ensures OfTransaction(Redo(logs), tx) == if Commits(logs, tx) then DataOf(logs, tx) else []
  {
    SelectedOfTransaction(logs, logs, tx);
  }

  /** LSNs strictly ascend. */
  ghost predicate Ascends(rs: seq<LogRecord>) {
    forall i, j :: 0 <= i < j < |rs| ==> rs[i].lsn < rs[j].lsn
  }

  lemma {:induction false} AscendingAscends(s: Log, lo: nat, hi: nat)
    requires Numbered(s) && Retains(s)
    ensures Ascends(Ascending(s.records, lo, hi))
    ensures forall r :: r in Ascending(s.records, lo, hi) ==> lo < r.lsn <= hi
    decreases hi
  {
    if hi > lo {
      AscendingAscends(s, lo, hi - 1);
      var before := Ascending(s.records, lo, hi - 1);
      forall i | 0 <= i < |before|
        ensures before[i].lsn < hi
      {
        assert before[i] in before;
      }
    }
  }

  lemma {:induction false} SelectedAscends(rs: seq<LogRecord>, logs: seq<LogRecord>)
    requires Ascends(rs)
    ensures Ascends(Selected(rs, logs))
    ensures forall r :: r in Selected(rs, logs) ==> r in rs
  {
    hide Commits, IsData;
    if rs != [] {
      var front, last := rs[..|rs| - 1], rs[|rs| - 1];
      SelectedAscends(front, logs);
      var chosen := Selected(front, logs);
      forall i | 0 <= i < |chosen|
        ensures chosen[i].lsn < last.lsn
      {
        assert chosen[i] in chosen;
        var k :| 0 <= k < |front| && front[k] == chosen[i];
        assert rs[k] == front[k];
      }
      assert rs == front + [last];
    }
  }

  lemma {:induction false} SelectedMembers(rs: seq<LogRecord>, logs: seq<LogRecord>, r: LogRecord)
    ensures r in Selected(rs, logs) <==> r in rs && Commits(logs, r.tx) && IsData(r)
  {
    hide Commits, IsData;
    if rs != [] {
      var front, last := rs[..|rs| - 1], rs[|rs| - 1];
      SelectedMembers(front, logs, r);
      assert rs == front + [last];
    }
  }

  /** What redo applies, and in which order: strictly ascending LSNs, and exactly the inserts, updates
      and deletes of the transactions with a commit in the list. Both together fix the list. */
  lemma RedoIsExact(s: Log, checkpoint: nat, r: LogRecord)
    requires Valid(s)
    ensures Ascends(Redo(LogsSince(s, checkpoint)))
    ensures r in Redo(LogsSince(s, checkpoint)) <==>
      && r in LogsSince(s, checkpoint)
      && (r.kind == KIND_INSERT || r.kind == KIND_UPDATE || r.kind == KIND_DELETE)
      && exists c :: c in LogsSince(s, checkpoint) && c.kind == KIND_COMMIT && c.tx == r.tx
    ensures r in LogsSince(s, checkpoint) <==> r.lsn > checkpoint && r.lsn in s.records && s.records[r.lsn] == r
  {
    hide Conserves, Linked, LastOf, Ascending, Selected;
    var logs := LogsSince(s, checkpoint);
    AscendingAscends(s, checkpoint, |s.history|);
    SelectedAscends(logs, logs);
    SelectedMembers(logs, logs, r);
    CommitsMeans(logs, r.tx);
    AscendingMembers(s, checkpoint, |s.history|, r);
  }

  lemma CommitsMeans(logs: seq<LogRecord>, tx: nat)
    ensures Commits(logs, tx) <==> exists c :: c in logs && c.kind == KIND_COMMIT && c.tx == tx
  {
    if c :| c in logs && c.kind == KIND_COMMIT && c.tx == tx {
      var i :| 0 <= i < |logs| && logs[i] == c;
    }
    if i :| 0 <= i < |logs| && logs[i].kind == KIND_COMMIT && logs[i].tx == tx {
      assert logs[i] in logs;
    }
  }

  lemma {:induction false} AscendingMembers(s: Log, lo: nat, hi: nat, r: LogRecord)
    requires Numbered(s) && Retains(s)
    ensures r in Ascending(s.records, lo, hi) <==> lo < r.lsn <= hi && r.lsn in s.records && s.records[r.lsn] == r
    decreases hi
  {
    if hi > lo {
      AscendingMembers(s, lo, hi - 1, r);
    }
  }

  // ---------- Runs of appends and checkpoints ----------

  datatype Event = Logged(record: LogRecord, time: U64) | Checkpointed(payload: Payload, time: U64)

  /** The record `writeCheckpointRecord` appends. */
  function CheckpointRecord(payload: Payload): LogRecord {
    LogRecord(0, KIND_CHECKPOINT, 0, 0xFFFF_FFFF_FFFF_FFFF, 0, payload, 0, 0)
  }

  /** An append, or a checkpoint: append its record and truncate to it. */
  ghost function React(s: Log, e: Event): Log
    requires Valid(s) && |s.history| < MAX_LSN
  {
    match e
    case Logged(r, time) => Next(s, DoAppend(r, time))
    case Checkpointed(payload, time) =>
      Truncate(Next(s, DoAppend(CheckpointRecord(payload), time)), |s.history| + 1)
  }

  lemma ReactIsValid(s: Log, e: Event)
    requires Valid(s) && CutAtCheckpoint(s) && |s.history| < MAX_LSN
    ensures Valid(React(s, e)) && CutAtCheckpoint(React(s, e))
    ensures |React(s, e).history| == |s.history| + 1
  {
    hide Valid, Next, Truncate;
    var r, time := if e.Logged? then e.record else CheckpointRecord(e.payload), e.time;
    StepIsValid(s, DoAppend(r, time));
    AppendExtends(s, r, time);
    var t := Next(s, DoAppend(r, time));
    if e.Checkpointed? {
      StepIsValid(t, DoTruncate(|s.history| + 1));
      TruncateStep(t, |s.history| + 1);
    }
  }

  lemma AppendExtends(s: Log, r: LogRecord, time: U64)
    requires Valid(s) && |s.history| < MAX_LSN
    ensures
      var t := Next(s, DoAppend(r, time));
      && t.cut == s.cut && |t.history| == |s.history| + 1 && t.history[..|s.history|] == s.history
      && t.history[|s.history|].kind == r.kind
  {
    hide LastOf, Conserves, Encode, Retains, Linked, Numbered;
    StepHistory(s, DoAppend(r, time));
    EmitTouchesBytesOnly(Remember(s, Stamped(s, r, time)), Stamped(s, r, time));
  }

  lemma TruncateStep(s: Log, lsn: nat)
    requires Valid(s) && s.cut <= lsn <= |s.history|
    ensures Next(s, DoTruncate(lsn)) == Truncate(s, lsn)
    ensures Truncate(s, lsn).cut == lsn && Truncate(s, lsn).history == s.history
  {
    hide Valid;
  }

  ghost function Stamped(s: Log, r: LogRecord, time: U64): LogRecord
    requires Valid(s) && |s.history| < MAX_LSN
  {
    LastOfBounded(s);
    Stamp(s, r, time)
  }

  ghost function Reached(s: Log, events: seq<Event>): (t: Log)
    requires Valid(s) && CutAtCheckpoint(s) && |s.history| + |events| <= MAX_LSN
    ensures Valid(t) && CutAtCheckpoint(t)
    decreases events
  {
    if events == [] then s
    else
      ReactIsValid(s, events[0]);
      Reached(React(s, events[0]), events[1..])
  }

  /** Checkpoint truncation is invisible to redo: after every run of appends and checkpoints,
      recovery on the truncated log selects the same records, in the same order, as it would on
      the full history. */
  lemma CheckpointsAreInvisibleToRedo(s: Log, events: seq<Event>)
    requires Valid(s) && CutAtCheckpoint(s) && |s.history| + |events| <= MAX_LSN
    ensures RecoveredRedo(Reached(s, events)) == FullRedo(Reached(s, events).history)
  {
    hide RecoveredRedo, FullRedo, Conserves, Linked, LastOf;
    RedoIgnoresTruncation(Reached(s, events));
  }
}
