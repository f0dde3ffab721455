/** The log manager object with its fixed write buffer, and the write-ahead rule on top of it. */
module LogManagement {
  import opened Bytes
  import opened Common
  import opened LogCodec
  import opened LogState
  import opened Recovery

  /** The first half of the fixed fields. */
  method SerializeIdentity(r: LogRecord, buffer: array<Byte>, at: nat) returns (p: nat)
    requires at + 28 <= buffer.Length
    modifies buffer
    ensures p == at + 28
    ensures buffer[..p] ==
      old(buffer[..at]) + (ToBytes(8, r.lsn) + ToBytes(4, r.kind) + ToBytes(8, r.tx) + ToBytes(8, r.page))
  {
    hide ToBytes;
    p := Copy(buffer, at, ToBytes(8, r.lsn));
    p := Copy(buffer, p, ToBytes(4, r.kind));
    p := Copy(buffer, p, ToBytes(8, r.tx));
    p := Copy(buffer, p, ToBytes(8, r.page));
  }

  /** The second half of the fixed fields. */
  method SerializePosition(r: LogRecord, buffer: array<Byte>, at: nat) returns (p: nat)
    requires at + 22 <= buffer.Length
    modifies buffer
    ensures p == at + 22
    ensures buffer[..p] ==
      old(buffer[..at]) + (ToBytes(4, r.offset) + ToBytes(2, |r.data|) + ToBytes(8, r.prevLsn) + ToBytes(8, r.time))
  {
    hide ToBytes;
    p := Copy(buffer, at, ToBytes(4, r.offset));
    p := Copy(buffer, p, ToBytes(2, |r.data|));
    p := Copy(buffer, p, ToBytes(8, r.prevLsn));
    p := Copy(buffer, p, ToBytes(8, r.time));
  }

  lemma EncodeInHalves(r: LogRecord)
    ensures Encode(r) ==
      (ToBytes(8, r.lsn) + ToBytes(4, r.kind) + ToBytes(8, r.tx) + ToBytes(8, r.page))
      + (ToBytes(4, r.offset) + ToBytes(2, |r.data|) + ToBytes(8, r.prevLsn) + ToBytes(8, r.time)) + r.data
  {
    hide ToBytes;
  }

  /** Writes the fields of a record one after the other; the result is the number of bytes. */
  method SerializeRecord(r: LogRecord, buffer: array<Byte>, at: nat) returns (n: nat)
    requires at + HEADER_SIZE + |r.data| <= buffer.Length
    modifies buffer
    ensures n == |Encode(r)|
    ensures buffer[..at + n] == old(buffer[..at]) + Encode(r)
  {
    hide ToBytes, Encode;
    EncodeInHalves(r);
    var p := SerializeIdentity(r, buffer, at);
    p := SerializePosition(r, buffer, p);
    p := Copy(buffer, p, r.data);
    n := p - at;
  }

  /** Reads the fields of a record one after the other. The caller supplies a whole record. */
  method DeserializeRecord(buffer: seq<Byte>) returns (r: LogRecord, n: nat)
    requires Decode(buffer).Some?
    ensures Decode(buffer) == Some(r) && n == HEADER_SIZE + |r.data|
  {
    FieldWidths();
    var p := 0;
    var lsn := FromBytes(buffer[p..p + 8]);
    p := p + 8;
    var kind := FromBytes(buffer[p..p + 4]);
    p := p + 4;
    var tx := FromBytes(buffer[p..p + 8]);
    p := p + 8;
    var page := FromBytes(buffer[p..p + 8]);
    p := p + 8;
    var offset := FromBytes(buffer[p..p + 4]);
    p := p + 4;
    var length := FromBytes(buffer[p..p + 2]);
    p := p + 2;
    var prevLsn := FromBytes(buffer[p..p + 8]);
    p := p + 8;
    var time := FromBytes(buffer[p..p + 8]);
    p := p + 8;
    assert DecodeHeader(buffer) == Header(lsn, kind, tx, page, offset, length, prevLsn, time);
    r := LogRecord(lsn, kind, tx, page, offset, buffer[p..p + length], prevLsn, time);
    n := p + length;
  }

  class LogManager {
    var mode: Mode
    var currentLsn: nat
    var lastTxLsn: map<nat, nat>
    var logBuffer: map<nat, LogRecord>
    const writeBuffer: array<Byte>
    var bufferPos: nat
    var logFile: seq<Byte>
    var lastCheckpoint: nat

    ghost var history: seq<LogRecord>
    ghost var written: seq<LogRecord>
    ghost var flushed: nat
    ghost var cut: nat

    ghost function State(): Log
      requires bufferPos <= writeBuffer.Length
      reads this, writeBuffer
    {
      Log(history, written, flushed, logFile, writeBuffer[..bufferPos], logBuffer, cut, lastTxLsn, map[], mode)
    }

    ghost predicate Ok()
      reads this, writeBuffer
    {
      && writeBuffer.Length == WRITE_BUFFER_SIZE && bufferPos <= WRITE_BUFFER_SIZE
      && currentLsn == |history| + 1
      && Valid(State())
    }

    constructor ()
      ensures Ok() && State() == EmptyLog && lastCheckpoint == 0 && fresh(writeBuffer)
    {
      mode, currentLsn, bufferPos, lastCheckpoint := Normal, 1, 0, 0;
      lastTxLsn, logBuffer, logFile := map[], map[], [];
      writeBuffer := new Byte[WRITE_BUFFER_SIZE](i => 0);
      history, written, flushed, cut := [], [], 0, 0;
      new;
      EmptyIsValid();
    }

    method AppendLogRecord(record: LogRecord, time: U64) returns (lsn: nat)
      requires Ok() && currentLsn <= MAX_LSN
      modifies this, writeBuffer
      ensures Ok() && lsn == old(currentLsn)
      ensures old(Enabled(State(), DoAppend(record, time))) && State() == Next(old(State()), DoAppend(record, time))
      ensures lastCheckpoint == old(lastCheckpoint)
    {
      hide Valid, Encode;
      ghost var s := State();
      AppendFacts(s, record, time);
      lsn := currentLsn;
      currentLsn := currentLsn + 1;
      var copy := record.(lsn := lsn, time := time);
      if record.tx in lastTxLsn {
        copy := copy.(prevLsn := lastTxLsn[record.tx]);
      }
      lastTxLsn := lastTxLsn[record.tx as nat := lsn];
      logBuffer := logBuffer[lsn := copy];
      history := history + [copy];
      if mode != NoLog {
        WriteOut(copy);
      }
    }

    /** The part of the append that goes to the write buffer. */
    method WriteOut(copy: LogRecord)
      requires writeBuffer.Length == WRITE_BUFFER_SIZE && bufferPos <= WRITE_BUFFER_SIZE && mode != NoLog
      modifies this`bufferPos, this`logFile, this`flushed, this`written, writeBuffer
      ensures bufferPos <= WRITE_BUFFER_SIZE && State() == Emit(old(State()), copy)
    {
      hide Encode;
      if bufferPos + RECORD_SIZE + |copy.data| > WRITE_BUFFER_SIZE {
        FlushBufferToFile();
      }
      var n := SerializeRecord(copy, writeBuffer, bufferPos);
      bufferPos := bufferPos + n;
      written := written + [copy];
    }

    method FlushBufferToFile()
      requires bufferPos <= writeBuffer.Length
      modifies this`bufferPos, this`logFile, this`flushed
      ensures bufferPos == 0 && State() == FlushBuffer(old(State()))
    {
      if bufferPos > 0 {
        logFile := logFile + writeBuffer[..bufferPos];
        bufferPos := 0;
      }
      assert logFile == old(logFile) + old(writeBuffer[..bufferPos]);
      flushed := |written|;
    }

    /** `flush` ignores its LSN and writes everything out. */
    method Flush(lsn: nat)
      requires Ok()
      modifies this`bufferPos, this`logFile, this`flushed
      ensures Ok() && State() == FlushBuffer(old(State()))
    {
      StepIsValid(State(), DoFlush);
      FlushBufferToFile();
    }

    method TruncateLog(lsn: nat)
      requires Ok()
      modifies this`logBuffer, this`cut
      ensures Ok() && State() == Truncate(old(State()), lsn)
    {
      hide Valid;
      ghost var s := State();
      StepIsValid(s, DoTruncate(lsn));
      var pending := logBuffer.Keys;
      while pending != {}
        invariant pending <= logBuffer.Keys <= old(logBuffer).Keys
        invariant forall l :: l in logBuffer ==> logBuffer[l] == old(logBuffer)[l]
        invariant forall l :: l in old(logBuffer) && l !in pending ==> (l in logBuffer <==> l >= lsn)
        decreases pending
      {
        var l :| l in pending;
        pending := pending - {l};
        if l < lsn {
          logBuffer := logBuffer - {l};
        }
      }
      assert logBuffer == Truncate(s, lsn).records;
      cut := Truncate(s, lsn).cut;
    }

    method GetLogsSince(lsn: nat) returns (result: seq<LogRecord>)
      requires Ok()
      ensures result == LogsSince(State(), lsn)
    {
      hide Valid;
      result := [];
      for l := 1 to currentLsn
        invariant result == Ascending(logBuffer, lsn, l - 1)
      {
        if l in logBuffer && l > lsn {
          result := result + [logBuffer[l]];
        }
      }
    }

    method GetLogsForTransaction(tx: nat) returns (result: seq<LogRecord>)
      requires Ok()
      ensures result == LogsForTransaction(State(), tx)
    {
      hide Valid, OfTransaction;
      result := [];
      OfTransactionNone(tx);
      for l := 1 to currentLsn
        invariant result == OfTransaction(Ascending(logBuffer, 0, l - 1), tx)
      {
        if l in logBuffer {
          OfTransactionStep(Ascending(logBuffer, 0, l - 1), logBuffer[l], tx);
          if logBuffer[l].tx == tx {
            result := result + [logBuffer[l]];
          }
        }
        assert result + [] == result && Ascending(logBuffer, 0, l - 1) + [] == Ascending(logBuffer, 0, l - 1);
      }
    }
  }

  lemma OfTransactionNone(tx: nat)
    ensures OfTransaction([], tx) == []
  {}

  lemma AppendFacts(s: Log, r: LogRecord, time: U64)
    requires Valid(s) && |s.history| < MAX_LSN
    ensures forall tx :: tx in s.lastOfTx ==> s.lastOfTx[tx] <= MAX_LSN
    ensures Valid(Append(s, r, time)) && Append(s, r, time) == Next(s, DoAppend(r, time))
  {
    LastOfBounded(s);
    StepIsValid(s, DoAppend(r, time));
  }

  class WalManager {
    const log: LogManager
    var durablePages: map<nat, nat>

    constructor (log: LogManager)
      ensures this.log == log && durablePages == map[]
    {
      this.log := log;
      durablePages := map[];
    }

    ghost function State(): Log
      requires log.bufferPos <= log.writeBuffer.Length
      reads this, log, log.writeBuffer
    {
      log.State().(durable := durablePages)
    }

    /** The log is on disk before the page is; the page is noted with its LSN. */
    method BeforePageWriteRule(page: nat, lsn: nat)
      requires log.Ok()
      modifies this, log`bufferPos, log`logFile, log`flushed
      ensures log.Ok() && State() == BeforePageWrite(old(State()), page, lsn)
    {
      log.Flush(lsn);
      durablePages := durablePages[page := lsn];
    }
  }
}
