/** Checkpoints: write the record, truncate the log, and select what recovery redoes. */
module Checkpointing {
  import opened Bytes
  import opened LogCodec
  import opened LogState
  import opened Recovery
  import opened LogManagement
  import opened CheckpointText

  /** The characters of a text with the terminating zero, as bytes. */
  function CString(s: string): (bs: seq<Byte>)
    requires forall i :: 0 <= i < |s| ==> s[i] < 256 as char
    ensures |bs| == |s| + 1
  {
    if s == [] then [0] else [s[0] as nat] + CString(s[1..])
  }

  /** The text up to the first zero byte. */
  function FromCString(bs: seq<Byte>): string {
    if bs == [] || bs[0] == 0 then [] else [bs[0] as char] + FromCString(bs[1..])
  }

  lemma {:induction false} CStringReadsBack(s: string)
    requires forall i :: 0 <= i < |s| ==> 0 as char < s[i] < 256 as char
    ensures FromCString(CString(s)) == s
  {
    if s != [] {
      CStringReadsBack(s[1..]);
      assert CString(s)[1..] == CString(s[1..]);
    }
  }

  lemma TextIsAscii(full: bool, ids: seq<nat>)
    ensures forall i :: 0 <= i < |Text(full, ids)| ==> 0 as char < Text(full, ids)[i] < 256 as char
  {
    hide Joined;
    JoinedIsPlain(ids);
    assert forall i :: 0 <= i < |Joined(ids)| ==> 0 as char < Joined(ids)[i] < 256 as char;
  }

  /** The payload of a checkpoint record. */
  function CheckpointPayload(full: bool, ids: seq<nat>): seq<Byte> {
    TextIsAscii(full, ids);
    CString(Text(full, ids))
  }

  /** Through the record's bytes, the list of active transactions comes back as it was written. */
  lemma PayloadRoundTrip(full: bool, ids: seq<nat>)
    requires forall i :: 0 <= i < |ids| ==> ids[i] <= MAX_ID
    ensures ParseText(FromCString(CheckpointPayload(full, ids))) == Ids(ids)
  {
    hide Text, ParseText, CString, FromCString;
    TextIsAscii(full, ids);
    CStringReadsBack(Text(full, ids));
    TextRoundTrip(full, ids);
  }

  /** A checkpoint record belongs to no transaction and no page and carries the text. */
  ghost predicate IsCheckpoint(r: LogRecord, full: bool, active: seq<nat>, time: U64) {
    && r.kind == KIND_CHECKPOINT && r.tx == 0 && r.page == 0xFFFF_FFFF_FFFF_FFFF && r.offset == 0 && r.time == time
    && r.data == CheckpointPayload(full, active)
  }

  lemma CarriesCheckpoint(full: bool, active: seq<nat>, time: U64)
    requires |CheckpointPayload(full, active)| < 0x1_0000
    ensures forall r :: Carries(r, DoAppend(CheckpointRecord(CheckpointPayload(full, active)), time)) ==>
      IsCheckpoint(r, full, active, time)
  {}

  class CheckpointManager {
    const log: LogManager
    var lastCheckpointLsn: nat

    constructor (log: LogManager)
      ensures this.log == log && lastCheckpointLsn == 0
    {
      this.log := log;
      lastCheckpointLsn := 0;
    }

    /** Append the checkpoint record, remember its LSN, and truncate the log to it. */
    method CreateCheckpoint(full: bool, active: seq<nat>, time: U64)
      requires log.Ok() && log.currentLsn <= MAX_LSN
      requires |CheckpointPayload(full, active)| < 0x1_0000
      modifies this, log, log.writeBuffer
      ensures log.Ok() && lastCheckpointLsn == old(log.currentLsn) == log.lastCheckpoint
      ensures log.State() == React(old(log.State()), Checkpointed(CheckpointPayload(full, active), time))
    {
      hide Valid, Append, Truncate, CString, Text, Next;
      WriteCheckpointRecord(full, active, time);
      log.TruncateLog(lastCheckpointLsn);
    }

    method WriteCheckpointRecord(full: bool, active: seq<nat>, time: U64)
      requires log.Ok() && log.currentLsn <= MAX_LSN
      requires |CheckpointPayload(full, active)| < 0x1_0000
      modifies this, log, log.writeBuffer
      ensures log.Ok() && lastCheckpointLsn == old(log.currentLsn) == log.lastCheckpoint
      ensures old(Enabled(log.State(), DoAppend(CheckpointRecord(CheckpointPayload(full, active)), time)))
      ensures log.State() == Next(old(log.State()), DoAppend(CheckpointRecord(CheckpointPayload(full, active)), time))
      ensures log.history != [] && IsCheckpoint(log.history[|log.history| - 1], full, active, time)
    {
      hide Valid, Append, Next, Carries, LinkedAfter;
      StepHistory(log.State(), DoAppend(CheckpointRecord(CheckpointPayload(full, active)), time));
      CarriesCheckpoint(full, active, time);
      var data := WriteText(full, active);
      TextIsAscii(full, active);
      var lsn := log.AppendLogRecord(CheckpointRecord(CString(data)), time);
      log.lastCheckpoint := lsn;
      lastCheckpointLsn := lsn;
    }

    /** The last checkpoint and the transactions active at it; no LSN when there is none. */
    method FindLastCheckpointRecord() returns (lsn: nat, active: Parsed)
      requires log.Ok()
      ensures lsn == FindLastCheckpoint(log.logBuffer, |log.history|)
      ensures lsn > 0 ==> active == ParseText(FromCString(log.logBuffer[lsn].data))
    {
      hide Valid, ParseText, FromCString;
      lsn := log.currentLsn - 1;
      active := Ids([]);
      while lsn > 0
        invariant lsn <= |log.history|
        invariant FindLastCheckpoint(log.logBuffer, |log.history|) == FindLastCheckpoint(log.logBuffer, lsn)
      {
        if lsn in log.logBuffer && log.logBuffer[lsn].kind == KIND_CHECKPOINT {
          active := FindActive(FromCString(log.logBuffer[lsn].data));
          return;
        }
        lsn := lsn - 1;
      }
    }

    /** The records redo applies, in LSN order: two passes, commits first. */
    method RedoFromCheckpoint(checkpoint: nat) returns (redone: seq<LogRecord>)
      requires log.Ok()
      ensures redone == Redo(LogsSince(log.State(), checkpoint))
    {
      hide Valid, LogsSince;
      var logs := log.GetLogsSince(checkpoint);
      var committed: map<nat, bool> := map[];
      for i := 0 to |logs|
        invariant forall tx :: tx in committed && committed[tx] <==>
          exists k :: 0 <= k < i && logs[k].kind == KIND_COMMIT && logs[k].tx == tx
      {
        if logs[i].kind == KIND_COMMIT {
          committed := committed[logs[i].tx as nat := true];
        }
      }
      redone := [];
      for i := 0 to |logs|
        invariant redone == Selected(logs[..i], logs)
      {
        assert logs[..i + 1][..i] == logs[..i];
        if logs[i].tx in committed && committed[logs[i].tx] && IsData(logs[i]) {
          redone := redone + [logs[i]];
        }
        assert redone + [] == redone;
      }
      assert logs[..|logs|] == logs;
    }

    /** Recovery on the in-memory log. By CheckpointsAreInvisibleToRedo it is recovery on the full history. */
    method RecoverFromCheckpoint() returns (found: bool, redone: seq<LogRecord>)
      requires log.Ok()
      ensures found <==> FindLastCheckpoint(log.logBuffer, |log.history|) > 0
      ensures redone == RecoveredRedo(log.State())
      ensures CutAtCheckpoint(log.State()) ==> redone == FullRedo(log.history)
    {
      hide Redo, LogsSince, Conserves, Linked, Numbered, ParseText, FromCString;
      var lsn, active := FindLastCheckpointRecord();
      if CutAtCheckpoint(log.State()) {
        RedoIgnoresTruncation(log.State());
      }
      if lsn == 0 {
        return false, [];
      }
      redone := RedoFromCheckpoint(lsn);
      found := true;
    }
  }
}
