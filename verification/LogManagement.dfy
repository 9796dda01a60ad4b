/**
  The log manager: records get their numbers, go through one buffer and reach the disk when it is flushed.
 */
module LogManagement {
  import opened Config
  import opened LogRecords

  const LOG_BUFFER_SIZE := 1024 * PAGE_SIZE

  /** Records in the order of their numbers, which start from 0. */
  predicate Numbered(rs: seq<LogRecord>)
  {
    forall i :: 0 <= i < |rs| ==> rs[i].lsn == i && RecordOk(rs[i])
  }

  class LogManager {
    var buffer: array<Octet>
    var offset: nat
    var globalLsn: int
    var persistLsn: int
    var disk: Octets

    /** Every record that was added, and how many of them are on disk. */
    ghost var log: seq<LogRecord>
    ghost var flushed: nat
    ghost var everFlushed: bool

    ghost predicate Valid()
      reads this, buffer
    {
      && buffer.Length == LOG_BUFFER_SIZE + 1 && offset <= LOG_BUFFER_SIZE
      && Numbered(log) && globalLsn == |log|
      && flushed <= |log| && disk == Stream(log[..flushed]) && buffer[..offset] == Stream(log[flushed..])
      && (everFlushed ==> persistLsn == flushed - 1)
    }

    constructor ()
      ensures Valid() && log == [] && disk == [] && fresh(buffer)
    {
      buffer := new Octet[LOG_BUFFER_SIZE + 1](_ => 0);
      offset, globalLsn, disk := 0, 0, [];
      persistLsn := *;
      log, flushed, everFlushed := [], 0, false;
    }

    predicate IsFull(appendSize: int)
      reads this
    {
      offset + appendSize > LOG_BUFFER_SIZE
    }

    method FlushLogToDisk()
      requires Valid()
      modifies this, buffer
      ensures Valid() && log == old(log) && buffer == old(buffer) && globalLsn == old(globalLsn)
      ensures offset == 0 && flushed == |log| && disk == Stream(log) && persistLsn == |log| - 1
      ensures disk == old(disk) + old(buffer[..offset])
    {
      hide Stream;
      StreamNone();
      StreamJoin(log[..flushed], log[flushed..]);
      assert log[..flushed] + log[flushed..] == log;
      disk := disk + buffer[..offset];
      forall i | 0 <= i < buffer.Length {
        buffer[i] := 0;
      }
      offset := 0;
      persistLsn := globalLsn - 1;
      flushed, everFlushed := |log|, true;
      assert log[..flushed] == log && log[flushed..] == [];
    }

    /** Numbers a record and writes it to the buffer, which is flushed first if the record does not fit. */
    method AddLogToBuffer(record: LogRecord) returns (lsn: int)
      requires Valid() && globalLsn < TWO31 && TotLen(record.body) <= LOG_BUFFER_SIZE
      requires RecordOk(record.(lsn := 0))
      modifies this, buffer
      ensures Valid() && buffer == old(buffer) && lsn == |old(log)| && log == old(log) + [record.(lsn := lsn)]
      ensures if old(offset) + TotLen(record.body) > LOG_BUFFER_SIZE
              then disk == old(disk) + old(buffer[..offset]) && offset == TotLen(record.body)
              else disk == old(disk) && offset == old(offset) + TotLen(record.body)
    {
      hide Stream, Serialized, TotLen;
      if IsFull(TotLen(record.body)) {
        FlushLogToDisk();
      }
      lsn := globalLsn;
      globalLsn := globalLsn + 1;
      var numbered := record.(lsn := lsn);
      Serialize(numbered, buffer, offset);
      StreamMore(log[flushed..], numbered);
      offset := offset + TotLen(record.body);
      assert log[flushed..] + [numbered] == (log + [numbered])[flushed..] &&
          (log + [numbered])[..flushed] == log[..flushed];
      log := log + [numbered];
    }
  }

  /** Disk and buffer together read back as all the records, in the order of their numbers. */
  lemma {:induction false} LogReadsBack(m: LogManager)
    requires m.Valid()
    ensures Decode(m.disk + m.buffer[..m.offset]) == m.log
  {
    hide Stream, Decode, RecordOk;
    StreamJoin(m.log[..m.flushed], m.log[m.flushed..]);
    assert m.log[..m.flushed] + m.log[m.flushed..] == m.log;
    StreamRoundTrip(m.log);
  }

  /** What is left after a crash reads back as the records up to the persistent number. */
  lemma {:induction false} CrashReadsBack(m: LogManager)
    requires m.Valid() && m.everFlushed
    ensures -1 <= m.persistLsn < |m.log| && Decode(m.disk) == m.log[..m.persistLsn + 1]
  {
    StreamRoundTrip(m.log[..m.flushed]);
  }

  datatype Step = Add(record: LogRecord) | Flush

  /** The records added by a run, with their numbers. */
  function Added(steps: seq<Step>): seq<LogRecord>
  {
    if steps == [] then []
    else
      var before := Added(steps[..|steps| - 1]);
      match steps[|steps| - 1]
      case Add(r) => before + [r.(lsn := |before|)]
      case Flush => before
  }

  lemma {:induction false} AddedFew(steps: seq<Step>)
    ensures |Added(steps)| <= |steps|
  {
    if steps != [] {
      AddedFew(steps[..|steps| - 1]);
    }
  }

  /** Any run of additions and flushes leaves a log that reads back as what was added. */
  method RunLog(steps: seq<Step>) returns (disk: Octets, buffered: Octets)
    requires |steps| <= TWO31
    requires forall i :: 0 <= i < |steps| && steps[i].Add? ==>
        RecordOk(steps[i].record.(lsn := 0)) && TotLen(steps[i].record.body) <= LOG_BUFFER_SIZE
    ensures Decode(disk + buffered) == Added(steps)
    ensures Numbered(Added(steps))
  {
    hide Stream, Decode, TotLen, RecordOk;
    var m := new LogManager();
    for i := 0 to |steps|
      invariant fresh(m) && fresh(m.buffer) && m.Valid() && m.log == Added(steps[..i])
    {
      assert steps[..i + 1][..i] == steps[..i];
      AddedFew(steps[..i]);
      match steps[i]
      case Add(r) => var _ := m.AddLogToBuffer(r);
      case Flush => m.FlushLogToDisk();
    }
    assert steps[..|steps|] == steps;
    LogReadsBack(m);
    disk, buffered := m.disk, m.buffer[..m.offset];
  }
}
