/** The log as a value: history, the file with its write buffer, the in-memory records, and their invariants over runs. */
module LogState {
  import opened Bytes
  import opened LogCodec

  datatype Mode = Normal | Async | NoLog

  const WRITE_BUFFER_SIZE: nat := 1048576
  /** sizeof(LogRecord) in memory, which the append uses as its estimate of the encoded size. */
  const RECORD_SIZE: nat := 64
  const MAX_LSN: nat := 0xFFFF_FFFF_FFFF_FFFF

  /** `history` lists every appended record and `written` those sent towards the file, of which the
      first `flushed` are in it. `records` keeps LSNs from `cut` on, `lastOfTx` the last LSN of each
      transaction, `durable` the LSN each page write was announced with. */
  datatype Log = Log(
    history: seq<LogRecord>, written: seq<LogRecord>, flushed: nat,
    file: seq<Byte>, buffer: seq<Byte>,
    records: map<nat, LogRecord>, cut: nat, lastOfTx: map<nat, nat>, durable: map<nat, nat>, mode: Mode)

  const EmptyLog := Log([], [], 0, [], [], map[], 0, map[], map[], Normal)

  // ---------- Steps ----------

  /** The record as stored: next LSN, the clock's time, linked to the transaction's previous record. */
  function Stamp(s: Log, r: LogRecord, time: U64): (t: LogRecord)
    requires |s.history| < MAX_LSN && forall tx :: tx in s.lastOfTx ==> s.lastOfTx[tx] <= MAX_LSN
    ensures t.lsn == |s.history| + 1 && t.tx == r.tx && t.kind == r.kind && t.data == r.data
  {
    r.(lsn := |s.history| + 1, time := time,
       prevLsn := if r.tx in s.lastOfTx then s.lastOfTx[r.tx] else r.prevLsn)
  }

  function FlushBuffer(s: Log): Log {
    s.(file := s.file + s.buffer, buffer := [], flushed := |s.written|)
  }

  function Emit(s: Log, r: LogRecord): Log {
    if s.mode == NoLog then s
    else
      var t := if |s.buffer| + RECORD_SIZE + |r.data| > WRITE_BUFFER_SIZE then FlushBuffer(s) else s;
      t.(buffer := t.buffer + Encode(r), written := t.written + [r])
  }

  function Remember(s: Log, r: LogRecord): Log {
    s.(history := s.history + [r], records := s.records[r.lsn as nat := r], lastOfTx := s.lastOfTx[r.tx as nat := r.lsn as nat])
  }

  function Append(s: Log, r: LogRecord, time: U64): Log
    requires |s.history| < MAX_LSN && forall tx :: tx in s.lastOfTx ==> s.lastOfTx[tx] <= MAX_LSN
  {
    var t := Stamp(s, r, time);
    Emit(Remember(s, t), t)
  }

  /** Records below `lsn` are forgotten; records appended later are kept whatever their LSN. */
  function Truncate(s: Log, lsn: nat): Log {
    var reached := if lsn <= |s.history| then lsn else |s.history| + 1;
    s.(records := map l | l in s.records && l >= lsn :: s.records[l], cut := if reached > s.cut then reached else s.cut)
  }

  /** The write-ahead rule: flush the log, then note the page. */
  function BeforePageWrite(s: Log, page: nat, lsn: nat): Log {
    var t := FlushBuffer(s);
    t.(durable := t.durable[page := lsn])
  }

  datatype Action =
    | DoAppend(record: LogRecord, time: U64)
    | DoFlush
    | DoTruncate(lsn: nat)
    | DoPageWrite(page: nat, lsn: nat)
    | DoSetMode(mode: Mode)

  // ---------- Invariants ----------

  /** File and write buffer together are the encodings of everything written, cut between two records. */
  ghost predicate Conserves(s: Log) {
    && s.flushed <= |s.written|
    && s.file == EncodeAll(s.written[..s.flushed])
    && s.buffer == EncodeAll(s.written[s.flushed..])
    && |s.buffer| <= WRITE_BUFFER_SIZE
  }

  ghost predicate Numbered(s: Log) {
    && |s.history| <= MAX_LSN
    && (forall i :: 0 <= i < |s.history| ==> s.history[i].lsn == i + 1)
  }

  /** The last LSN of a transaction within a history, 0 if it has none. */
  function LastOf(h: seq<LogRecord>, tx: nat): (l: nat)
    ensures l <= |h|
  {
    if h == [] then 0 else if h[|h| - 1].tx == tx then |h| else LastOf(h[..|h| - 1], tx)
  }

  ghost predicate Linked(s: Log) {
    && (forall tx :: tx in s.lastOfTx <==> LastOf(s.history, tx) > 0)
    && (forall tx :: tx in s.lastOfTx ==> s.lastOfTx[tx] == LastOf(s.history, tx))
    && (forall i :: 0 <= i < |s.history| ==>
          LastOf(s.history[..i], s.history[i].tx) == 0 || s.history[i].prevLsn == LastOf(s.history[..i], s.history[i].tx))
  }

  ghost predicate Retains(s: Log) {
    && (forall l :: l in s.records <==> s.cut <= l && 1 <= l <= |s.history|)
    && (forall l :: l in s.records ==> s.records[l] == s.history[l - 1])
  }

  ghost predicate CutInHistory(s: Log) {
    s.cut <= |s.history| + 1
  }

  ghost predicate Valid(s: Log) {
    Conserves(s) && Numbered(s) && Linked(s) && Retains(s) && CutInHistory(s)
  }

  ghost predicate Enabled(s: Log, a: Action) {
    match a
    case DoAppend(_, _) => |s.history| < MAX_LSN
    case _ => true
  }

  lemma LastOfBounded(s: Log)
    requires Linked(s) && Numbered(s)
    ensures forall tx :: tx in s.lastOfTx ==> s.lastOfTx[tx] <= MAX_LSN
  {
    hide LastOf;
  }

  ghost function Next(s: Log, a: Action): Log
    requires Valid(s) && Enabled(s, a)
  {
    LastOfBounded(s);
    match a
    case DoAppend(r, time) => Append(s, r, time)
    case DoFlush => FlushBuffer(s)
    case DoTruncate(lsn) => Truncate(s, lsn)
    case DoPageWrite(page, lsn) => BeforePageWrite(s, page, lsn)
    case DoSetMode(m) => s.(mode := m)
  }

  lemma FlushConserves(s: Log)
    requires Conserves(s)
    ensures Conserves(FlushBuffer(s))
  {
    hide EncodeAll;
    EncodeAllConcat(s.written[..s.flushed], s.written[s.flushed..]);
    assert s.written[..s.flushed] + s.written[s.flushed..] == s.written;
    assert s.written[..|s.written|] == s.written;
    assert s.written[|s.written|..] == [];
    EncodeAllUnfolds([]);
  }

  lemma WriteConserves(s: Log, r: LogRecord)
    requires Conserves(s) && |s.buffer| + RECORD_SIZE + |r.data| <= WRITE_BUFFER_SIZE
    ensures Conserves(s.(buffer := s.buffer + Encode(r), written := s.written + [r]))
  {
    hide EncodeAll, Encode;
    var w := s.written + [r];
    assert w[..s.flushed] == s.written[..s.flushed];
    assert w[s.flushed..] == s.written[s.flushed..] + [r];
    EncodeAllConcat(s.written[s.flushed..], [r]);
    EncodeAllUnfolds([r]);
    EncodeAllUnfolds([]);
    assert [r][1..] == [];
  }

  lemma EmitConserves(s: Log, r: LogRecord)
    requires Conserves(s)
    ensures Conserves(Emit(s, r))
  {
    hide Conserves, Encode;
    if s.mode != NoLog {
      var full := |s.buffer| + RECORD_SIZE + |r.data| > WRITE_BUFFER_SIZE;
      FlushConserves(s);
      WriteConserves(if full then FlushBuffer(s) else s, r);
    }
  }

  lemma LastOfExtends(h: seq<LogRecord>, r: LogRecord, tx: nat)
    ensures LastOf(h + [r], tx) == if r.tx == tx then |h| + 1 else LastOf(h, tx)
  {
    assert (h + [r])[..|h|] == h;
  }

  lemma RememberLinks(s: Log, r: LogRecord)
    requires Linked(s) && r.lsn == |s.history| + 1
    requires LastOf(s.history, r.tx) == 0 || r.prevLsn == LastOf(s.history, r.tx)
    ensures Linked(Remember(s, r))
  {
    hide LastOf;
    var h := s.history + [r];
    forall tx
      ensures LastOf(h, tx) == if r.tx == tx then |h| else LastOf(s.history, tx)
    {
      LastOfExtends(s.history, r, tx);
    }
    forall i | 0 <= i < |h|
      ensures h[..i] == s.history[..i]
    {}
    assert s.history[..|s.history|] == s.history;
  }

  lemma RememberRetains(s: Log, r: LogRecord)
    requires Retains(s) && CutInHistory(s) && r.lsn == |s.history| + 1
    ensures Retains(Remember(s, r)) && CutInHistory(Remember(s, r))
  {}

  lemma AppendIsValid(s: Log, r: LogRecord, time: U64)
    requires Valid(s) && |s.history| < MAX_LSN
    ensures Valid(Next(s, DoAppend(r, time)))
  {
    hide Conserves, Linked, Retains, Emit;
    LastOfBounded(s);
    var t := Stamp(s, r, time);
    StampLinks(s, r, time);
    RememberLinks(s, t);
    RememberRetains(s, t);
    ConservesIgnores(s, Remember(s, t));
    EmitConserves(Remember(s, t), t);
    EmitTouchesBytesOnly(Remember(s, t), t);
  }

  lemma StampLinks(s: Log, r: LogRecord, time: U64)
    requires Linked(s) && Numbered(s) && |s.history| < MAX_LSN
    requires forall tx :: tx in s.lastOfTx ==> s.lastOfTx[tx] <= MAX_LSN
    ensures LastOf(s.history, r.tx) == 0 || Stamp(s, r, time).prevLsn == LastOf(s.history, r.tx)
  {
    hide LastOf;
  }

  lemma ConservesIgnores(s: Log, t: Log)
    requires Conserves(s) && t.flushed == s.flushed && t.written == s.written && t.file == s.file && t.buffer == s.buffer
    ensures Conserves(t)
  {}

  lemma EmitTouchesBytesOnly(s: Log, r: LogRecord)
    ensures var t := Emit(s, r);
      && t.history == s.history && t.records == s.records && t.cut == s.cut && t.lastOfTx == s.lastOfTx
      && t.durable == s.durable && t.mode == s.mode
      && (Linked(s) ==> Linked(t)) && (Retains(s) ==> Retains(t))
  {}

  lemma TruncateRetains(s: Log, lsn: nat)
    requires Retains(s) && CutInHistory(s)
    ensures Retains(Truncate(s, lsn))
  {}

  lemma StepIsValid(s: Log, a: Action)
    requires Valid(s) && Enabled(s, a)
    ensures Valid(Next(s, a))
  {
    hide Conserves, Retains, Append, LastOf;
    match a
    case DoAppend(r, time) => AppendIsValid(s, r, time);
    case DoFlush =>
      FlushConserves(s);
      SameRecords(s, FlushBuffer(s));
    case DoTruncate(lsn) =>
      TruncateRetains(s, lsn);
      ConservesIgnores(s, Truncate(s, lsn));
    case DoPageWrite(page, lsn) =>
      FlushConserves(s);
      SameRecords(s, FlushBuffer(s));
      ConservesIgnores(FlushBuffer(s), BeforePageWrite(s, page, lsn));
      SameRecords(s, BeforePageWrite(s, page, lsn));
    case DoSetMode(m) =>
      ConservesIgnores(s, s.(mode := m));
      SameRecords(s, s.(mode := m));
  }

  lemma SameRecords(s: Log, t: Log)
    requires Retains(s) && t.records == s.records && t.cut == s.cut && t.history == s.history
    ensures Retains(t)
  {}

  // ---------- Runs ----------

  ghost predicate IsRun(s: Log, run: seq<Action>)
    requires Valid(s)
    decreases run
  {
    run != [] ==> Enabled(s, run[0]) && (StepIsValid(s, run[0]); IsRun(Next(s, run[0]), run[1..]))
  }

  ghost function After(s: Log, run: seq<Action>): (t: Log)
    requires Valid(s) && IsRun(s, run)
    ensures Valid(t)
    decreases run
  {
    if run == [] then s else (StepIsValid(s, run[0]); After(Next(s, run[0]), run[1..]))
  }

  /** Nothing already in the file, in the history, or known to be in the file is ever lost. */
  ghost predicate Grows(s: Log, t: Log) {
    && s.history <= t.history && s.written <= t.written && s.flushed <= t.flushed && s.file <= t.file
  }

  lemma StepGrows(s: Log, a: Action)
    requires Valid(s) && Enabled(s, a)
    ensures Grows(s, Next(s, a))
  {
    hide EncodeAll, Encode, LastOf, Linked, Retains;
  }

  lemma {:induction false} RunGrows(s: Log, run: seq<Action>)
    requires Valid(s) && IsRun(s, run)
    ensures Grows(s, After(s, run))
    decreases run
  {
    hide Valid, Enabled, Next;
    if run != [] {
      StepIsValid(s, run[0]);
      StepGrows(s, run[0]);
      RunGrows(Next(s, run[0]), run[1..]);
    }
  }

  /** What a crash can leave of the file: everything flushed, and any prefix of the buffer
      if it strikes while the buffer is being written. */
  ghost predicate CrashImage(s: Log, image: seq<Byte>) {
    s.file <= image <= s.file + s.buffer
  }

  /** After a crash at any point, repeated decoding of the file yields a prefix of what was
      written, and at least all that had been flushed. */
  lemma CrashYieldsPrefix(s: Log, image: seq<Byte>)
    requires Valid(s) && CrashImage(s, image)
    ensures DecodeAll(image) <= s.written
    ensures |DecodeAll(image)| >= s.flushed
  {
    hide EncodeAll, Linked, Retains, Numbered, DecodeAll, WholeRecords;
    var a, b := s.written[..s.flushed], s.written[s.flushed..];
    EncodeAllConcat(a, b);
    assert a + b == s.written;
    var n := |image|;
    assert image == EncodeAll(s.written)[..n];
    DecodeCutStream(s.written, n);
    WholeRecordsCover(a, b, n);
  }

  /** Write-ahead: from the moment a page write was announced with an LSN already appended, every
      later crash leaves all records up to that LSN readable. */
  lemma AnnouncedRecordsSurvive(s: Log, page: nat, lsn: nat, run: seq<Action>, image: seq<Byte>)
    requires Valid(s) && s.written == s.history && lsn <= |s.history|
    requires (StepIsValid(s, DoPageWrite(page, lsn)); IsRun(Next(s, DoPageWrite(page, lsn)), run))
    requires (StepIsValid(s, DoPageWrite(page, lsn)); CrashImage(After(Next(s, DoPageWrite(page, lsn)), run), image))
    ensures s.history[..lsn] <= DecodeAll(image)
  {
    hide Valid, DecodeAll, IsRun, After, CrashImage;
    StepIsValid(s, DoPageWrite(page, lsn));
    var t := Next(s, DoPageWrite(page, lsn));
    RunGrows(t, run);
    var u := After(t, run);
    CrashYieldsPrefix(u, image);
    var d := DecodeAll(image);
    assert t.flushed == |s.history| <= u.flushed <= |d|;
    assert t.written == s.history <= u.written;
    assert d == u.written[..|d|];
    assert s.history[..lsn] == d[..lsn];
  }

  /** The guarantee needs the LSN to be appended: right after the announcement, a crash leaves
      `lsn` records readable exactly when the log already had that many. */
  lemma AnnouncementCoversIffAppended(s: Log, page: nat, lsn: nat)
    requires Valid(s) && s.written == s.history
    ensures |DecodeAll(BeforePageWrite(s, page, lsn).file)| >= lsn <==> lsn <= |s.history|
  {
    hide EncodeAll, Linked, Retains, DecodeAll, EncodeHeader, DecodeHeader;
    var t := BeforePageWrite(s, page, lsn);
    StepIsValid(s, DoPageWrite(page, lsn));
    assert CrashImage(t, t.file);
    CrashYieldsPrefix(t, t.file);
  }

  ghost predicate AlwaysLogged(run: seq<Action>) {
    forall i :: 0 <= i < |run| ==> run[i] != DoSetMode(NoLog)
  }

  /** As long as logging is not switched off, everything appended is written. */
  lemma {:induction false} LoggedRunWritesAll(s: Log, run: seq<Action>)
    requires Valid(s) && IsRun(s, run) && AlwaysLogged(run) && s.mode != NoLog && s.written == s.history
    ensures After(s, run).written == After(s, run).history
    decreases run
  {
    hide Valid, LastOf, Encode;
    if run != [] {
      StepIsValid(s, run[0]);
      assert AlwaysLogged(run[1..]) by {
        assert forall i :: 0 <= i < |run[1..]| ==> run[1..][i] == run[i + 1];
      }
      LoggedRunWritesAll(Next(s, run[0]), run[1..]);
    }
  }

  lemma EmptyIsValid()
    ensures Valid(EmptyLog)
  {}

  // ---------- What the callers appended ----------

  /** The appends of a run, in order. */
  ghost function AppendsOf(run: seq<Action>): (r: seq<Action>)
    ensures forall i :: 0 <= i < |r| ==> r[i].DoAppend?
  {
    if run == [] then [] else (if run[0].DoAppend? then [run[0]] else []) + AppendsOf(run[1..])
  }

  /** The stored record is the caller's, with the time of the append. */
  ghost predicate Carries(stored: LogRecord, a: Action)
    requires a.DoAppend?
  {
    && stored.kind == a.record.kind && stored.tx == a.record.tx && stored.data == a.record.data
    && stored.page == a.record.page && stored.offset == a.record.offset && stored.time == a.time
  }

  /** The first record of a transaction keeps the caller's link; later ones have the last LSN of the transaction. */
  ghost predicate LinkedAfter(stored: LogRecord, h: seq<LogRecord>, a: Action)
    requires a.DoAppend?
  {
    stored.prevLsn == var last := LastOf(h, a.record.tx); if last == 0 then a.record.prevLsn else last
  }

  lemma StepHistory(s: Log, a: Action)
    requires Valid(s) && Enabled(s, a)
    ensures !a.DoAppend? ==> Next(s, a).history == s.history
    ensures a.DoAppend? ==>
      var t := Next(s, a);
      && |t.history| == |s.history| + 1 && t.history[..|s.history|] == s.history
      && Carries(t.history[|s.history|], a) && LinkedAfter(t.history[|s.history|], s.history, a)
  {
    hide LastOf, Conserves, Encode, Retains;
    if a.DoAppend? {
      LastOfBounded(s);
      var x := Stamp(s, a.record, a.time);
      EmitTouchesBytesOnly(Remember(s, x), x);
    }
  }

  /** The history is what the callers appended, in order: each record carries the caller's own
      fields, the time given, and the link to its transaction's record before it. */
  lemma {:induction false} HistoryIsAppended(s: Log, run: seq<Action>, i: nat)
    requires Valid(s) && IsRun(s, run)
    ensures
      var t, n := After(s, run), |s.history|;
      && s.history <= t.history && |t.history| == n + |AppendsOf(run)|
      && (i < |AppendsOf(run)| ==>
          Carries(t.history[n + i], AppendsOf(run)[i]) && LinkedAfter(t.history[n + i], t.history[..n + i], AppendsOf(run)[i]))
    decreases run
  {
    hide Valid, Next, Enabled, Carries, LinkedAfter;
    if run != [] {
      StepIsValid(s, run[0]);
      StepHistory(s, run[0]);
      var u := Next(s, run[0]);
      if run[0].DoAppend? {
        HistoryIsAppended(u, run[1..], if i == 0 then 0 else i - 1);
        var t := After(u, run[1..]);
        assert t.history[|s.history|] == u.history[|s.history|];
        assert t.history[..|s.history|] == u.history[..|s.history|];
      } else {
        HistoryIsAppended(u, run[1..], i);
      }
    }
  }

  /** The page writes announced in a run: each page with the LSN of its last announcement. */
  ghost function Announced(noted: map<nat, nat>, run: seq<Action>): map<nat, nat>
    decreases run
  {
    if run == [] then noted
    else Announced(if run[0].DoPageWrite? then noted[run[0].page := run[0].lsn] else noted, run[1..])
  }

  lemma StepNotes(s: Log, a: Action)
    requires Valid(s) && Enabled(s, a)
    ensures Next(s, a).durable == if a.DoPageWrite? then s.durable[a.page := a.lsn] else s.durable
  {
    hide LastOf, Conserves, Encode, Retains;
    if a.DoAppend? {
      LastOfBounded(s);
      var x := Stamp(s, a.record, a.time);
      EmitTouchesBytesOnly(Remember(s, x), x);
    }
  }

  lemma {:induction false} NotesAreAnnounced(s: Log, run: seq<Action>)
    requires Valid(s) && IsRun(s, run)
    ensures After(s, run).durable == Announced(s.durable, run)
    decreases run
  {
    hide Valid, Next, Enabled;
    if run != [] {
      StepIsValid(s, run[0]);
      StepNotes(s, run[0]);
      NotesAreAnnounced(Next(s, run[0]), run[1..]);
    }
  }

  /** An append sends the buffer to the file exactly when the estimated size of the record does not
      fit behind what the buffer holds; nothing else moves bytes to the file but a flush. */
  lemma AppendSpillsIff(s: Log, r: LogRecord, time: U64)
    requires Valid(s) && |s.history| < MAX_LSN
    ensures
      var t := Next(s, DoAppend(r, time));
      var spills := s.mode != NoLog && |s.buffer| + RECORD_SIZE + |r.data| > WRITE_BUFFER_SIZE;
      t.file == (if spills then s.file + s.buffer else s.file)
  {
    hide LastOf, Encode;
    LastOfBounded(s);
  }

  /** Log conservation: after every run from an empty log without switching logging off, file and
      write buffer together are the encodings of all appended records in LSN order, the buffer
      never exceeds its size, and any crash leaves a readable prefix of the history, which are the
      records the callers appended. */
  lemma LogConservation(run: seq<Action>, image: seq<Byte>)
    requires (EmptyIsValid(); IsRun(EmptyLog, run))
    requires AlwaysLogged(run) && (EmptyIsValid(); CrashImage(After(EmptyLog, run), image))
    ensures (
      EmptyIsValid();
      var s := After(EmptyLog, run);
      && s.file + s.buffer == EncodeAll(s.history)
      && |s.buffer| <= WRITE_BUFFER_SIZE
      && (forall i :: 0 <= i < |s.history| ==> s.history[i].lsn == i + 1)
      && DecodeAll(image) <= s.history && |s.history| == |AppendsOf(run)|
      && forall i :: 0 <= i < |DecodeAll(image)| ==> Carries(DecodeAll(image)[i], AppendsOf(run)[i]))
  {
    hide IsRun, After, EncodeAll, DecodeAll, Linked, Retains, Carries, LinkedAfter;
    EmptyIsValid();
    HistoryIsAppended(EmptyLog, run, 0);
    LoggedRunWritesAll(EmptyLog, run);
    var s := After(EmptyLog, run);
    CrashYieldsPrefix(s, image);
    EncodeAllConcat(s.written[..s.flushed], s.written[s.flushed..]);
    assert s.written[..s.flushed] + s.written[s.flushed..] == s.written;
    forall i | 0 <= i < |DecodeAll(image)|
      ensures Carries(DecodeAll(image)[i], AppendsOf(run)[i])
    {
      HistoryIsAppended(EmptyLog, run, i);
    }
  }

  // ---------- Pages noted as durable ----------

  /** Each noted page's LSN is among the records already in the file. */
  ghost predicate NotedAreFlushed(s: Log) {
    forall p :: p in s.durable ==> s.durable[p] <= s.flushed
  }

  /** Page writes are announced with LSNs that have been appended. */
  ghost predicate AnnouncesAppended(s: Log, run: seq<Action>)
    requires Valid(s) && IsRun(s, run)
    decreases run
  {
    run != [] ==>
      && (run[0].DoPageWrite? ==> run[0].lsn <= |s.history|)
      && (StepIsValid(s, run[0]); AnnouncesAppended(Next(s, run[0]), run[1..]))
  }

  lemma StepKeepsNoted(s: Log, a: Action)
    requires Valid(s) && Enabled(s, a) && s.mode != NoLog && a != DoSetMode(NoLog)
    requires s.written == s.history && NotedAreFlushed(s)
    requires a.DoPageWrite? ==> a.lsn <= |s.history|
    ensures var t := Next(s, a);
      NotedAreFlushed(t) && t.written == t.history && t.mode != NoLog
  {
    hide LastOf, Encode, EncodeAll, Linked, Retains;
  }

  lemma {:induction false} RunKeepsNoted(s: Log, run: seq<Action>)
    requires Valid(s) && IsRun(s, run) && AlwaysLogged(run) && AnnouncesAppended(s, run)
    requires s.mode != NoLog && s.written == s.history && NotedAreFlushed(s)
    ensures NotedAreFlushed(After(s, run)) && After(s, run).written == After(s, run).history
    decreases run
  {
    hide Valid, Next, Enabled, NotedAreFlushed;
    if run != [] {
      StepIsValid(s, run[0]);
      StepKeepsNoted(s, run[0]);
      assert AlwaysLogged(run[1..]) by {
        assert forall i :: 0 <= i < |run[1..]| ==> run[1..][i] == run[i + 1];
      }
      RunKeepsNoted(Next(s, run[0]), run[1..]);
    }
  }

  /** The write-ahead guarantee for every page at once: after every run, and whatever a crash leaves
      of the file, a page whose last announcement was with an LSN has all records up to it readable,
      as the callers appended them. */
  lemma NotedPagesSurvive(run: seq<Action>, image: seq<Byte>, page: nat)
    requires (EmptyIsValid(); IsRun(EmptyLog, run) && AnnouncesAppended(EmptyLog, run))
    requires AlwaysLogged(run) && (EmptyIsValid(); CrashImage(After(EmptyLog, run), image))
    ensures (
      EmptyIsValid();
      var s := After(EmptyLog, run);
      && s.durable == Announced(map[], run)
      && (page in s.durable ==>
          && s.durable[page] <= |s.history| && s.history[..s.durable[page]] <= DecodeAll(image)
          && |DecodeAll(image)| <= |AppendsOf(run)|
          && forall i :: 0 <= i < s.durable[page] ==>
               DecodeAll(image)[i].lsn == i + 1 && Carries(DecodeAll(image)[i], AppendsOf(run)[i])))
  {
    hide IsRun, AnnouncesAppended, After, DecodeAll, CrashImage, Conserves, Linked, Retains, Carries, LinkedAfter;
    EmptyIsValid();
    NotesAreAnnounced(EmptyLog, run);
    HistoryIsAppended(EmptyLog, run, 0);
    RunKeepsNoted(EmptyLog, run);
    var s := After(EmptyLog, run);
    CrashYieldsPrefix(s, image);
    if page in s.durable {
      var d, n := DecodeAll(image), s.durable[page];
      assert d == s.history[..|d|];
      assert s.history[..n] == d[..n];
      forall i | 0 <= i < n
        ensures d[i].lsn == i + 1 && Carries(d[i], AppendsOf(run)[i])
      {
        HistoryIsAppended(EmptyLog, run, i);
      }
    }
  }
}
