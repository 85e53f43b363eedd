/**
 The record log handle. Every operation updates the handle and the directory in place, and is
 proved to be a run of the writer's steps; what the operating system decides comes in as a
 parameter.
 */
module RecordLog {
  import opened Bytes
  import opened Format
  import opened Recovery
  import opened Segment
  import opened Scan
  import opened ScanFacts
  import opened RecordIter
  import opened Listing
  import opened Writer
  import opened Operations

  datatype LogError =
    | WriterPoisoned(reason: LogError)
    | EncodeFailed(encodeError: EncodeError)
    | WriteFailed
    | SizeOverflow
    | TxidOverflow(txid: U64)
    | SyncFailed
    | SyncDirFailed
    | ListFailed
    | NoFreeId(idError: IdError)
    | IdNotIncreasing(current: U32, computed: U32)
    | CreateFailed
    | OpenFailed
    | ScanFailed(scanError: ScanError)

  // ------------------------------------------------------------------ the handle

  lemma FreshOpens()
    ensures ScanDir(OpenDir([])).error.None?
  {
    var d := OpenDir([]);
    assert d == [Seg(1, [], 0, true)] && AllClean(Front(d)) && Clean(Last(d).bytes);
    ScanSucceedsIff(d);
  }

  lemma OpenDirListed(d: Dir)
    requires Listed(d) == d
    ensures Listed(OpenDir(d)) == OpenDir(d) && OpenDir(d) != []
    ensures [NewSegment(1)] + [] == [NewSegment(1)]
  {
    hide ParseSegmentFilename, SegmentName;
    if d == [] {
      ListedAll(OpenDir(d));
    }
  }

  class RecordLog {
    const dir: Directory
    var activeId: U32
    var activeSize: nat
    var nextTxid: U64
    var lastReport: Option<ScanState>
    /** Set on the first failure that leaves the file in doubt; never cleared. */
    var poisoned: Option<LogError>

    ghost var acked: seq<Rec>
    ghost var durable: seq<Rec>
    ghost var left: Option<Pending>

    /** A handle that is not poisoned has the last segment open for append. */
    ghost predicate Valid()
      reads this, dir
    {
      poisoned.None? ==> left.None? && dir.segs != [] && Last(dir.segs).id == activeId
    }

    ghost function Abs(): Writer
      reads this, dir
    {
      Writer(dir.segs, if poisoned.None? then Idle else Poisoned(left), activeId, activeSize, nextTxid, acked, durable)
    }

    constructor Init(dir: Directory, activeId: U32, activeSize: nat, nextTxid: U64, report: ScanState)
      requires dir.segs != [] && Last(dir.segs).id == activeId
      ensures Valid() && this.dir == dir && lastReport == Some(report) && poisoned == None
      ensures Abs() == Writer(dir.segs, Idle, activeId, activeSize, nextTxid, Strip(report.records), [])
    {
      this.dir, this.activeId, this.activeSize, this.nextTxid := dir, activeId, activeSize, nextTxid;
      lastReport, poisoned := Some(report), None;
      acked, durable, left := Strip(report.records), [], None;
    }

    /**
     Opens the log in any directory. createOk and dirOk are the outcomes of creating segment 1 and
     of syncing the directory, which only a directory without segments needs.
     */
    static method Open(dir: Directory, createOk: bool, dirOk: bool) returns (r: Result<RecordLog, LogError>)
      requires Splits(dir.segs, dir.others)
      modifies dir
      ensures r.Ok? <==> ScanDir(OpenDir(old(dir.segs))).error.None? && (old(dir.segs) == [] ==> createOk && dirOk)
      ensures r.Ok? ==> dir.segs == OpenDir(old(dir.segs))
      ensures r.Ok? ==> fresh(r.value) && r.value.dir == dir && r.value.Valid() && r.value.poisoned.None?
      ensures r.Ok? ==> r.value.Abs() == OpenWriter(old(dir.segs), [])
      ensures r.Ok? ==> r.value.lastReport == Some(ScanDir(dir.segs).state)
      ensures r.Err? ==>
        if old(dir.segs) == [] && !createOk then r.error == CreateFailed && dir.segs == []
        else if old(dir.segs) == [] then r.error == SyncDirFailed && dir.segs == [NewSegment(1)]
        else dir.segs == old(dir.segs) && ScanDir(dir.segs).error.Some? && r.error == ScanFailed(ScanDir(dir.segs).error.value)
    {
      hide ScanDir, Strip, Taking, Parse, NextSegmentId;
      OpenDirListed(dir.segs);
      FreshOpens();
      var ids := dir.List();
      if ids == [] {
        if !createOk {
          return Err(CreateFailed);
        }
        dir.segs := [NewSegment(1)] + dir.segs;
        if !dirOk {
          return Err(SyncDirFailed);
        }
        dir.segs := SyncEntries(dir.segs);
        ids := ids + [1];
      }
      var activeId := ids[|ids| - 1];
      var scan := ScanAll(dir.segs);
      if scan.error.Some? {
        return Err(ScanFailed(scan.error.value));
      }
      var report := scan.state;
      var nextTxid := TxidAfter(report.lastTxid);
      var activeSize := 0;
      if report.logicalEnd.Some? && report.logicalEnd.value.0 == activeId {
        activeSize := report.logicalEnd.value.1;
      }
      var log := new RecordLog.Init(dir, activeId, activeSize, nextTxid, report);
      return Ok(log);
    }

    method CheckPoisoned() returns (error: Option<LogError>)
      ensures error == if poisoned.Some? then Some(WriterPoisoned(poisoned.value)) else None
    {
      if poisoned.Some? {
        return Some(WriterPoisoned(poisoned.value));
      }
      return None;
    }

    method AppendRecord(kind: RecordType, key: seq<Byte>, payload: seq<Byte>, io: WriteOutcome)
      returns (r: Result<RecordRef, LogError>)
      requires Valid()
      modifies this, dir
      ensures Valid()
      ensures old(poisoned).Some? ==> r == Err(WriterPoisoned(old(poisoned).value)) && Abs() == old(Abs())
      ensures old(poisoned).None? && |key| > MAX_KEY_LEN ==> r == Err(EncodeFailed(KeyOverCap)) && Abs() == old(Abs())
      ensures old(poisoned).None? && |key| <= MAX_KEY_LEN && |payload| > MAX_PAYLOAD_LEN ==>
        r == Err(EncodeFailed(PayloadOverCap)) && Abs() == old(Abs())
      ensures old(poisoned).None? && |key| <= MAX_KEY_LEN && |payload| <= MAX_PAYLOAD_LEN ==>
        var len := |Frame(Rec(kind, old(nextTxid), key, payload))|;
        && Runs(old(Abs()), AppendSteps(kind, key, payload, len, io), Abs())
        && Abs() == AppendResult(old(Abs()), Rec(kind, old(nextTxid), key, payload), io)
        && (r == if io.Stopped? then Err(WriteFailed)
                 else if old(activeSize) + len > U64_MAX then Err(SizeOverflow)
                 else if old(nextTxid) == U64_MAX then Err(TxidOverflow(U64_MAX))
                 else Ok(RecordRef(old(activeId), old(activeSize), len)))
        && (poisoned == if r.Err? then Some(r.error) else None)
      ensures lastReport == old(lastReport)
    {
      hide Frame, Runs, Extend, AppendSteps;
      var refusal := CheckPoisoned();
      if refusal.Some? {
        return Err(refusal.value);
      }
      var txid := nextTxid;
      var encoded := EncodeRecord(kind, txid, key, payload);
      if encoded.Err? {
        return Err(EncodeFailed(encoded.error));
      }
      var bytes := encoded.value;
      var len, offset := |bytes|, activeSize;
      ghost var rec := Rec(kind, txid, key, payload);
      AppendIsRun(Abs(), kind, key, payload, io);
      ExtendKeepsActive(dir.segs);
      if io.Stopped? {
        var count := if io.after <= len then io.after else len;
        dir.segs := Extend(dir.segs, bytes[..count]);
        poisoned := Some(WriteFailed);
        left := Some(Pending(rec, count));
        return Err(WriteFailed);
      }
      dir.segs := Extend(dir.segs, bytes);
      if activeSize + len > U64_MAX {
        poisoned := Some(SizeOverflow);
        left := Some(Pending(rec, len));
        return Err(SizeOverflow);
      }
      activeSize := activeSize + len;
      if txid == U64_MAX {
        poisoned := Some(TxidOverflow(txid));
        left := Some(Pending(rec, len));
        return Err(TxidOverflow(txid));
      }
      nextTxid := txid + 1;
      acked := acked + [rec];
      return Ok(RecordRef(activeId, offset, len));
    }

    method Append(payload: seq<Byte>, io: WriteOutcome) returns (r: Result<RecordRef, LogError>)
      requires Valid()
      modifies this, dir
      ensures Valid()
      ensures old(poisoned).Some? ==> r == Err(WriterPoisoned(old(poisoned).value)) && Abs() == old(Abs())
      ensures old(poisoned).None? && |payload| > MAX_PAYLOAD_LEN ==> r == Err(EncodeFailed(PayloadOverCap)) && Abs() == old(Abs())
      ensures old(poisoned).None? && |payload| <= MAX_PAYLOAD_LEN ==>
        var len := |Frame(Rec(Raw, old(nextTxid), [], payload))|;
        && Runs(old(Abs()), AppendSteps(Raw, [], payload, len, io), Abs())
        && Abs() == AppendResult(old(Abs()), Rec(Raw, old(nextTxid), [], payload), io)
        && (r == if io.Stopped? then Err(WriteFailed)
                 else if old(activeSize) + len > U64_MAX then Err(SizeOverflow)
                 else if old(nextTxid) == U64_MAX then Err(TxidOverflow(U64_MAX))
                 else Ok(RecordRef(old(activeId), old(activeSize), len)))
        && (poisoned == if r.Err? then Some(r.error) else None)
    {
      hide Frame, Runs, Extend, AppendSteps, AppendResult;
      r := AppendRecord(Raw, [], payload, io);
    }

    method Fsync(fileOk: bool, dirOk: bool) returns (r: Result<(), LogError>)
      requires Valid()
      modifies this, dir
      ensures Valid()
      ensures old(poisoned).Some? ==> r == Err(WriterPoisoned(old(poisoned).value)) && Abs() == old(Abs())
      ensures old(poisoned).None? ==> Runs(old(Abs()), FsyncSteps(fileOk, dirOk), Abs())
      ensures old(poisoned).None? ==> Abs() == Fsynced(old(Abs()), fileOk, dirOk)
      ensures old(poisoned).None? ==> r == if !fileOk then Err(SyncFailed) else if !dirOk then Err(SyncDirFailed) else Ok(())
      ensures old(poisoned).None? ==> poisoned == if r.Err? then Some(r.error) else None
      ensures lastReport == old(lastReport)
    {
      hide Runs, SyncEntries, SyncLast, FsyncSteps;
      var refusal := CheckPoisoned();
      if refusal.Some? {
        return Err(refusal.value);
      }
      FsyncIsRun(Abs(), fileOk, dirOk);
      SyncKeepsActive(dir.segs);
      if !fileOk {
        poisoned := Some(SyncFailed);
        return Err(SyncFailed);
      }
      dir.segs := SyncLast(dir.segs);
      if !dirOk {
        poisoned := Some(SyncDirFailed);
        return Err(SyncDirFailed);
      }
      dir.segs := SyncEntries(dir.segs);
      durable := acked;
      return Ok(());
    }

    method Rotate(io: RotateOutcome) returns (r: Result<(), LogError>)
      requires Valid()
      modifies this, dir
      ensures Valid()
      ensures old(poisoned).Some? ==> r == Err(WriterPoisoned(old(poisoned).value)) && Abs() == old(Abs())
      ensures old(poisoned).None? ==>
        var w := old(Abs()); Runs(w, RotateSteps(w, io), Abs()) && Abs() == Rotated(w, io)
      ensures old(poisoned).None? ==>
        (r.Ok? <==> io.syncOk && io.listOk && NextId(old(dir.segs)).Ok? && NextId(old(dir.segs)).value > old(activeId)
                    && io.create.Created? && io.dirOk && io.openOk)
      ensures r.Ok? ==> poisoned.None? && activeSize == 0 && Last(dir.segs).bytes == []
                        && NextId(old(dir.segs)) == Ok(activeId)
      ensures old(poisoned).None? ==>
        var next := NextId(old(dir.segs));
        r == if !io.syncOk then Err(SyncFailed)
             else if !io.listOk then Err(ListFailed)
             else if next.Err? then Err(NoFreeId(next.error))
             else if next.value <= old(activeId) then Err(IdNotIncreasing(old(activeId), next.value))
             else if !io.create.Created? then Err(CreateFailed)
             else if !io.dirOk then Err(SyncDirFailed)
             else if !io.openOk then Err(OpenFailed)
             else Ok(())
      ensures old(poisoned).None? ==>
        poisoned == if r.Ok? || r.error.ListFailed? || r.error.NoFreeId? then None else Some(r.error)
      ensures lastReport == old(lastReport)
    {
      hide Runs, SyncEntries, SyncLast, NextSegmentId, Listed, RotateSteps, Ids, Entered;
      var refusal := CheckPoisoned();
      if refusal.Some? {
        return Err(refusal.value);
      }
      RotateIsRun(Abs(), io);
      if !io.syncOk {
        poisoned := Some(SyncFailed);
        return Err(SyncFailed);
      }
      durable := Promise(Abs());
      IdsAfterSync(dir.segs);
      SyncKeepsActive(dir.segs);
      dir.segs := SyncLast(dir.segs);
      if !io.listOk {
        return Err(ListFailed);
      }
      var ids := Ids(Listed(dir.segs));
      var next := NextSegmentId(ids);
      if next.Err? {
        return Err(NoFreeId(next.error));
      }
      var newId := next.value;
      if newId <= activeId {
        poisoned := Some(IdNotIncreasing(activeId, newId));
        return Err(poisoned.value);
      }
      if !io.create.FailedBeforeCreate? {
        dir.segs := dir.segs + [NewSegment(newId)];
      }
      if !io.create.Created? {
        poisoned := Some(CreateFailed);
        return Err(CreateFailed);
      }
      if !io.dirOk {
        poisoned := Some(SyncDirFailed);
        return Err(SyncDirFailed);
      }
      EnteredLast(dir.segs);
      dir.segs := SyncEntries(dir.segs);
      durable := acked;
      if !io.openOk {
        poisoned := Some(OpenFailed);
        return Err(OpenFailed);
      }
      activeId := newId;
      activeSize := 0;
      return Ok(());
    }

    /** Rescans the directory; refreshes the report and the next txid on success. */
    method Scan() returns (r: Result<seq<Record>, LogError>)
      requires Valid()
      modifies this
      ensures Valid() && dir.segs == old(dir.segs)
      ensures var scan := ScanDir(Listed(dir.segs));
        && r == (if scan.error.None? then Ok(scan.state.records) else Err(ScanFailed(scan.error.value)))
        && Abs() == (if r.Ok? then old(Abs()).(nextTxid := TxidAfter(scan.state.lastTxid)) else old(Abs()))
        && lastReport == (if r.Ok? then Some(scan.state) else old(lastReport))
    {
      hide ScanDir, Listed;
      var scan := ScanAll(Listed(dir.segs));
      if scan.error.Some? {
        return Err(ScanFailed(scan.error.value));
      }
      nextTxid := TxidAfter(scan.state.lastTxid);
      lastReport := Some(scan.state);
      return Ok(scan.state.records);
    }

    method ScanIter() returns (iter: RecordIter)
      ensures fresh(iter) && iter.dir == dir && iter.Abs() == NewIter(Ids(Listed(dir.segs)))
    {
      iter := new RecordIter(dir, Ids(Listed(dir.segs)));
    }
  }
}
