/**
 The key-value store: a record log, the keydir over it, and the pool of files that reads go
 through. Each method works in place and is proved against the value map that the acknowledged
 records project to.
 */
module DataWal {
  import opened Bytes
  import opened Format
  import opened Recovery
  import opened Segment
  import opened Scan
  import opened ScanFacts
  import opened RecordIter
  import opened Listing
  import opened IterFacts
  import opened FdPool
  import opened Keydir
  import opened Writer
  import opened WriterInv
  import opened CrashSafety
  import opened Growth
  import opened Operations
  import opened RecordLog
  import opened KvRuns
  import opened Compaction

  lemma KeydirOfNone()
    ensures KeydirOf([]) == map[]
  {
  }

  /** Replays the log through the lazy iterator; later records override earlier ones. */
  method RebuildKeydir(log: RecordLog) returns (r: Result<Refs, ScanError>)
    requires Ordered(log.dir.segs) && Listed(log.dir.segs) == log.dir.segs
    ensures var scan := ScanDir(log.dir.segs);
      r == if scan.error.None? then Ok(KeydirOf(scan.state.records)) else Err(scan.error.value)
  {
    hide NextItem, Reached, Turn, ScanDir, KeydirOf, Unread, Listed, Ordered, NewIter;
    var d := log.dir.segs;
    var iter := log.ScanIter();
    var refs: Refs := map[];
    ghost var y: seq<Record> := [];
    ghost var got: seq<Rec> := [];
    NewIterReached(d);
    KeydirOfNone();
    while true
      invariant fresh(iter) && iter.dir == log.dir && log.dir.segs == d
      invariant iter.Abs().Wf() && Reached(iter.Abs(), d, y, got) && refs == KeydirOf(y)
      decreases |iter.ids| - iter.curIdx, Unread(iter.Abs(), d)
    {
      got := NextKeepsStep(iter.Abs(), d, y, got);
      var item := iter.Next();
      if item.End? {
        return Ok(refs);
      }
      if item.Failed? {
        return Err(item.error);
      }
      var rec := item.record;
      KeydirSnoc(y, rec);
      y := y + [rec];
      if rec.rec.kind.Put? {
        refs := refs[rec.rec.key := RecordRef(rec.segment, rec.offset, rec.len)];
      } else if rec.rec.kind.Delete? {
        refs := refs - {rec.rec.key};
      }
    }
  }

  datatype KvError =
    | LogRefused(logError: LogError)
    | ReadFailed(getError: GetError)
    | TargetNotEmpty

  datatype CompactionStats = CompactionStats(liveKeys: nat, recordsWritten: nat, bytesWritten: nat)

  /** The outcomes of the system calls of a compaction; writes(i) is that of the i-th record. */
  datatype CompactOutcome = CompactOutcome(
    createOk: bool, createDirOk: bool, canOpen: bool, writes: nat -> WriteOutcome, fileOk: bool, dirOk: bool)

  ghost predicate AllWell(io: CompactOutcome) {
    && io.createOk && io.createDirOk && io.canOpen && io.fileOk && io.dirOk
    && forall i: nat :: io.writes(i).Written?
  }

  /** When an append of a key and payload goes through. */
  predicate Accepts(w: Writer, key: seq<Byte>, payload: seq<Byte>, io: WriteOutcome) {
    && w.phase == Idle && |key| <= MAX_KEY_LEN && |payload| <= MAX_PAYLOAD_LEN && io.Written?
    && w.activeSize + RecordWireSize(|key|, |payload|) <= U64_MAX && w.nextTxid < U64_MAX
  }

  lemma AcceptsMeans(w: Writer, kind: RecordType, key: seq<Byte>, payload: seq<Byte>, io: WriteOutcome)
    ensures |key| <= MAX_KEY_LEN && |payload| <= MAX_PAYLOAD_LEN ==>
      var rec := Rec(kind, w.nextTxid, key, payload);
      && |Frame(rec)| == RecordWireSize(|key|, |payload|)
      && (Accepts(w, key, payload, io) <==> w.phase == Idle && AppendSucceeds(w, rec, io))
  {
  }

  /** How the log changes under a call to append. */
  predicate AppendStep(w: Writer, x: Writer, kind: RecordType, key: seq<Byte>, payload: seq<Byte>, io: WriteOutcome) {
    if w.phase == Idle && w.dir != [] && |key| <= MAX_KEY_LEN && |payload| <= MAX_PAYLOAD_LEN
    then x == AppendResult(w, Rec(kind, w.nextTxid, key, payload), io)
    else x == w
  }

  lemma FilesStay(d: Dir, e: Dir, files: seq<U32>)
    requires Grown(d, e) && Ordered(e) && forall f <- files :: Lookup(d, f).Some?
    ensures forall f <- files :: Lookup(e, f).Some?
  {
    hide Lookup;
    forall f <- files
      ensures Lookup(e, f).Some?
    {
      LookupFinds(d, f);
      var i :| 0 <= i < |d| && d[i].id == f;
      LookupAt(e, i);
    }
  }

  lemma ExtendLeaves(d: Dir, b: seq<Byte>, files: seq<U32>)
    requires d != [] && Ordered(d) && forall f <- files :: Lookup(d, f).Some?
    ensures var e := Extend(d, b); Ordered(e) && Grown(d, e) && forall f <- files :: Lookup(e, f).Some?
  {
    IdsKeepOrder(d, Extend(d, b));
    ExtendGrows(d, b);
    FilesStay(d, Extend(d, b), files);
  }

  lemma AppendLeaves(w: Writer, x: Writer, kind: RecordType, key: seq<Byte>, payload: seq<Byte>, io: WriteOutcome, files: seq<U32>)
    requires AppendStep(w, x, kind, key, payload, io)
    requires Ordered(w.dir) && forall f <- files :: Lookup(w.dir, f).Some?
    ensures Ordered(x.dir) && Grown(w.dir, x.dir) && forall f <- files :: Lookup(x.dir, f).Some?
    ensures w.dir != [] ==> x.dir != []
  {
    hide Lookup, Ordered, Extend, Frame;
    if x != w {
      var f := Frame(Rec(kind, w.nextTxid, key, payload));
      assert f[..|f|] == f;
      var n := if io.Stopped? && io.after <= |f| then io.after else |f|;
      ExtendLeaves(w.dir, f[..n], files);
    }
  }

  lemma PlacedStay(d: Dir, e: Dir, placed: seq<Record>)
    requires Ordered(e) && Grown(d, e) && forall r <- placed :: Placed(d, r)
    ensures forall r <- placed :: Placed(e, r)
  {
    hide Placed, Grown, Ordered;
    forall r <- placed
      ensures Placed(e, r)
    {
      PlacedGrows(d, e, r);
    }
  }

  lemma AckedStay(w: Writer, x: Writer, kind: RecordType, key: seq<Byte>, payload: seq<Byte>, io: WriteOutcome)
    requires AppendStep(w, x, kind, key, payload, io) && w.dir != []
    ensures if Accepts(w, key, payload, io) then x == Appended(w, Rec(kind, w.nextTxid, key, payload)) else x.acked == w.acked
  {
    hide Frame, Extend;
    AcceptsMeans(w, kind, key, payload, io);
  }

  lemma InvStays(w: Writer, x: Writer, kind: RecordType, key: seq<Byte>, payload: seq<Byte>, io: WriteOutcome)
    requires AppendStep(w, x, kind, key, payload, io) && Inv(w)
    ensures Inv(x)
  {
    hide Inv, Frame, Runs, Extend, AppendSteps, Ordered;
    if w.phase == Idle && w.dir != [] && |key| <= MAX_KEY_LEN && |payload| <= MAX_PAYLOAD_LEN {
      IdleFacts(w);
      var len := |Frame(Rec(kind, w.nextTxid, key, payload))|;
      AppendIsRun(w, kind, key, payload, io);
      AppendHasNoRotate(kind, key, payload, len, io);
      NoRotateWithinLimit(w, AppendSteps(kind, key, payload, len, io));
      RunKeeps(w, AppendSteps(kind, key, payload, len, io), x);
    }
  }

  /** A record appended where the handle thinks the segment ends, when it does end there. */
  lemma RecordAdded(w: Writer, rec: Rec, placed: seq<Record>)
    requires OnActive(w) && Ordered(w.dir) && |Last(w.dir).bytes| == w.activeSize
    requires forall p <- placed :: Placed(w.dir, p)
    ensures var r := Record(rec, w.activeId, w.activeSize, |Frame(rec)|);
      && Strip(placed + [r]) == Strip(placed) + [rec]
      && KeydirOf(placed + [r]) == KeydirOne(KeydirOf(placed), r)
      && forall p <- placed + [r] :: Placed(Appended(w, rec).dir, p)
  {
    hide DirRecords, Frame, KeydirOf, Grown;
    var r := Record(rec, w.activeId, w.activeSize, |Frame(rec)|);
    StripConcat(placed, [r]);
    assert Strip([r]) == Strip([r][..0]) + [r.rec];
    KeydirSnoc(placed, r);
    var e := Appended(w, rec).dir;
    IdsKeepOrder(w.dir, e);
    ExtendGrows(w.dir, Frame(rec));
    PlacedStay(w.dir, e, placed);
    LookupAt(e, |e| - 1);
    var b := Last(w.dir).bytes;
    assert (b + Frame(rec))[|b|..|b| + |Frame(rec)|] == Frame(rec);
    hide Ordered, Lookup;
    assert Placed(e, r);
  }

  lemma AppendedIs(w: Writer, rec: Rec)
    requires w.dir != [] && AppendSucceeds(w, rec, Written)
    ensures AppendResult(w, rec, Written) == Appended(w, rec)
  {
    hide Frame;
  }

  /** All that an append means for the store. */
  lemma StoreAppend(w: Writer, x: Writer, kind: RecordType, key: seq<Byte>, payload: seq<Byte>, io: WriteOutcome,
      placed: seq<Record>, files: seq<U32>)
    requires AppendStep(w, x, kind, key, payload, io) && w.dir != [] && Ordered(w.dir)
    requires forall f <- files :: Lookup(w.dir, f).Some?
    ensures Ordered(x.dir) && x.dir != [] && forall f <- files :: Lookup(x.dir, f).Some?
    ensures (forall r <- placed :: Placed(w.dir, r)) ==> forall r <- placed :: Placed(x.dir, r)
    ensures Inv(w) ==> Inv(x) && (w.phase == Idle ==> OnActive(w) && |Last(w.dir).bytes| == w.activeSize)
    ensures !Accepts(w, key, payload, io) ==> x.acked == w.acked
    ensures Accepts(w, key, payload, io) ==>
      var rec := Rec(kind, w.nextTxid, key, payload);
      var r := Record(rec, w.activeId, w.activeSize, |Frame(rec)|);
      && x.acked == w.acked + [rec] && Project(x.acked) == ProjectOne(Project(w.acked), rec)
      && (OnActive(w) && |Last(w.dir).bytes| == w.activeSize && (forall p <- placed :: Placed(w.dir, p)) ==>
            Strip(placed + [r]) == Strip(placed) + [rec] && KeydirOf(placed + [r]) == KeydirOne(KeydirOf(placed), r)
            && forall p <- placed + [r] :: Placed(x.dir, p))
      && (Inv(w) && placed == DirRecords(w.dir) ==> DirRecords(x.dir) == placed + [r])
  {
    hide Inv, Placed, Frame, Runs, Extend, Grown, Lookup, Ordered, KeydirOf, Project, Strip, DirRecords, DirRecs, Clean,
      AppendStep, AppendResult, ProjectOne, KeydirOne;
    AppendLeaves(w, x, kind, key, payload, io, files);
    AckedStay(w, x, kind, key, payload, io);
    if forall r <- placed :: Placed(w.dir, r) {
      PlacedStay(w.dir, x.dir, placed);
    }
    if Inv(w) {
      InvStays(w, x, kind, key, payload, io);
      if w.phase == Idle {
        IdleFacts(w);
      }
    }
    if Accepts(w, key, payload, io) {
      var rec := Rec(kind, w.nextTxid, key, payload);
      ProjectSnoc(w.acked, rec);
      if OnActive(w) && |Last(w.dir).bytes| == w.activeSize && forall p <- placed :: Placed(w.dir, p) {
        RecordAdded(w, rec, placed);
      }
      if Inv(w) {
        AcceptsMeans(w, kind, key, payload, io);
        AppendAdds(w, rec);
        AppendedIs(w, rec);
      }
    }
  }

  lemma PutOnMaps(refs: Refs, m: Values, r: Record)
    requires r.rec.kind.Put?
    ensures KeydirOne(refs, r) == refs[r.rec.key := r.Ref()] && ProjectOne(m, r.rec) == m[r.rec.key := r.rec.payload]
  {
  }

  lemma DeleteOnMaps(refs: Refs, m: Values, r: Record)
    requires r.rec.kind.Delete?
    ensures KeydirOne(refs, r) == refs - {r.rec.key} && ProjectOne(m, r.rec) == m - {r.rec.key}
  {
  }

  lemma SyncedSame(d: Dir)
    requires d != []
    ensures var y := SyncLast(d);
      |y| == |d| && forall i :: 0 <= i < |d| ==> y[i].id == d[i].id && y[i].bytes == d[i].bytes
  {
    var y := SyncLast(d);
    assert forall i :: 0 <= i < |d| - 1 ==> y[i] == Front(y)[i] == Front(d)[i] == d[i];
    assert y[|d| - 1] == Last(y) && d[|d| - 1] == Last(d);
  }

  lemma SameLeaves(d: Dir, e: Dir, files: seq<U32>)
    requires Ordered(d) && (forall f <- files :: Lookup(d, f).Some?)
    requires |e| == |d| && forall i :: 0 <= i < |d| ==> e[i].id == d[i].id && e[i].bytes == d[i].bytes
    ensures Ordered(e) && Grown(d, e) && DirRecords(e) == DirRecords(d) && forall f <- files :: Lookup(e, f).Some?
  {
    hide Lookup, DirRecords;
    SameRecords(e, d);
    FilesStay(d, e, files);
  }

  lemma FsyncLeaves(w: Writer, fileOk: bool, dirOk: bool, files: seq<U32>)
    requires w.dir != [] && Ordered(w.dir) && forall f <- files :: Lookup(w.dir, f).Some?
    ensures var x := Fsynced(w, fileOk, dirOk);
      && Ordered(x.dir) && Grown(w.dir, x.dir) && DirRecords(x.dir) == DirRecords(w.dir)
      && x.dir != [] && x.acked == w.acked && (fileOk && dirOk ==> x.durable == w.acked)
      && forall f <- files :: Lookup(x.dir, f).Some?
  {
    hide Lookup, DirRecords, SyncLast, Ordered, Grown;
    SyncedSame(w.dir);
    SameLeaves(w.dir, Fsynced(w, fileOk, dirOk).dir, files);
  }

  lemma FsyncKeepsInv(w: Writer, fileOk: bool, dirOk: bool)
    requires Inv(w) && w.phase == Idle && w.dir != []
    ensures Inv(Fsynced(w, fileOk, dirOk))
  {
    hide Inv, Runs, Fsynced, RunWithinLimit, Clean, DirRecs, Ordered;
    IdleFacts(w);
    FsyncIsRun(w, fileOk, dirOk);
    NoRotateWithinLimit(w, FsyncSteps(fileOk, dirOk));
    RunKeeps(w, FsyncSteps(fileOk, dirOk), Fsynced(w, fileOk, dirOk));
  }

  lemma KeysAgree(store: DataWal)
    requires store.Readable()
    ensures store.refs.Keys == store.Values().Keys
  {
    forall key: seq<Byte>
      ensures key in store.refs <==> key in store.Values()
    {
      LiveIff(store.placed, key);
    }
  }

  lemma OpenDirFacts(d: Dir)
    requires Ordered(d) && Listed(d) == d
    ensures Ordered(OpenDir(d)) && Listed(OpenDir(d)) == OpenDir(d) && OpenDir(d) != []
  {
    OpenDirListed(d);
  }

  lemma OpenedRecords(d: Dir)
    requires Listed(d) == d && ScanDir(OpenDir(d)).error.None?
    ensures var e := OpenDir(d);
      && ScanDir(e).state.records == DirRecords(e) && Strip(DirRecords(e)) == DirRecs(e)
      && OpenWriter(d, []).acked == DirRecs(e) && OpenWriter(d, []).dir == e
  {
    OpenDirListed(d);
    var e := OpenDir(d);
    ScanSucceedsIff(e);
    ScanGives(e);
    RecordsMatchRecs(e);
    hide ScanDir, DirRecords, DirRecs, Strip, Listed, OpenDir;
  }

  lemma StartsClean(d: Dir)
    requires d == [] || Settled(d)
    ensures Inv(OpenWriter(d, []))
  {
    StartKeeps(d);
  }

  lemma EnumeratedKeys(ks: seq<seq<Byte>>, m: Values)
    requires Enumerates(ks, m.Keys)
    ensures forall k <- ks :: k in m
    ensures |ks| == |m|
  {
    EnumerationSize(ks, m.Keys);
  }

  lemma EmptyListed()
    ensures Listed([]) == [] && Ordered([])
  {
  }

  lemma FreshStart()
    ensures var w := OpenWriter([], []);
      Inv(w) && w.acked == [] && w.nextTxid == 1 && w.phase == Idle && w.activeSize == 0 && |w.dir| == 1
  {
    hide Inv, OpenWriter, Settled, OpenDir;
    FreshKeeps([]);
    FreshDirectory();
    FreshIsOpened([]);
    OpenSettled(OpenDir([]), []);
  }

  /** One more record in a log of one segment. */
  lemma CompactStep(w: Writer, key: seq<Byte>, value: seq<Byte>, io: WriteOutcome)
    requires Inv(w) && |w.dir| == 1 && Accepts(w, key, value, io)
    ensures var rec := Rec(RecordType.Put, w.nextTxid, key, value); var x := AppendResult(w, rec, io);
      && Inv(x) && x.phase == Idle && |x.dir| == 1 && x.nextTxid == w.nextTxid + 1 && x.acked == w.acked + [rec]
      && x.activeSize == w.activeSize + |Frame(rec)| && |Frames(x.acked)| == |Frames(w.acked)| + |Frame(rec)|
  {
    hide Inv, Frame, Frames, DirRecords, DirRecs, Grown;
    var rec := Rec(RecordType.Put, w.nextTxid, key, value);
    AcceptsMeans(w, RecordType.Put, key, value, io);
    AppendAdds(w, rec);
    FramesSnoc(w.acked, rec);
  }

  /** The records are the puts of the given keys, numbered from 1. */
  predicate Copied(ks: seq<seq<Byte>>, m: Values, recs: seq<Rec>) {
    && |ks| < U64_MAX && (forall k <- ks :: k in m && |k| <= MAX_KEY_LEN && |m[k]| <= MAX_PAYLOAD_LEN)
    && recs == CompactRecs(ks, m)
  }

  lemma CopiedNone(ks: seq<seq<Byte>>, m: Values)
    ensures Copied(ks[..0], m, []) && Frames([]) == []
  {
  }

  lemma CopiedNext(ks: seq<seq<Byte>>, m: Values, i: nat, recs: seq<Rec>)
    requires i < |ks| && i + 1 < U64_MAX && Copied(ks[..i], m, recs)
    requires ks[i] in m && |ks[i]| <= MAX_KEY_LEN && |m[ks[i]]| <= MAX_PAYLOAD_LEN
    ensures Copied(ks[..i + 1], m, recs + [Rec(RecordType.Put, i + 1, ks[i], m[ks[i]])])
  {
    assert ks[..i + 1] == ks[..i] + [ks[i]] && ks[..i + 1][..i] == ks[..i];
  }

  predicate CopiedKeys(ks: seq<seq<Byte>>, m: Values, recs: seq<Rec>) {
    && |ks| <= U64_MAX && (forall k <- ks :: k in m && |k| <= MAX_KEY_LEN && |m[k]| <= MAX_PAYLOAD_LEN)
    && recs == CompactRecs(ks, m)
  }

  /** The records are those of the first keys. */
  ghost predicate PartOf(ks: seq<seq<Byte>>, m: Values, recs: seq<Rec>) {
    exists k: nat :: k <= |ks| && CopiedKeys(ks[..k], m, recs)
  }

  /** Now or after a power loss, the directory opens on the first of the records of a compaction. */
  ghost predicate PartlyCompacted(m: Values, d: Dir) {
    exists ks: seq<seq<Byte>> :: Enumerates(ks, m.Keys) &&
      forall e: Dir :: e == d || CrashTo(d, e) ==> ScanDir(Listed(e)).error.None? && PartOf(ks, m, Found(e))
  }

  lemma CopiedPart(ks: seq<seq<Byte>>, m: Values, i: nat, recs: seq<Rec>)
    requires i <= |ks| && Copied(ks[..i], m, recs)
    ensures PartOf(ks, m, recs)
  {
    hide CompactRecs;
    assert CopiedKeys(ks[..i], m, recs);
  }

  lemma NextPart(ks: seq<seq<Byte>>, m: Values, i: nat, recs: seq<Rec>)
    requires i < |ks| && i + 1 <= U64_MAX && Copied(ks[..i], m, recs)
    requires ks[i] in m && |ks[i]| <= MAX_KEY_LEN && |m[ks[i]]| <= MAX_PAYLOAD_LEN
    ensures PartOf(ks, m, recs + [Rec(RecordType.Put, i + 1, ks[i], m[ks[i]])])
  {
    assert ks[..i + 1] == ks[..i] + [ks[i]] && ks[..i + 1][..i] == ks[..i];
    assert CopiedKeys(ks[..i + 1], m, recs + [Rec(RecordType.Put, i + 1, ks[i], m[ks[i]])]);
  }

  lemma PartPrefix(ks: seq<seq<Byte>>, m: Values, recs: seq<Rec>, found: seq<Rec>)
    requires PartOf(ks, m, recs) && found <= recs
    ensures PartOf(ks, m, found)
  {
    hide CompactRecs, Frames;
    var k: nat :| k <= |ks| && CopiedKeys(ks[..k], m, recs);
    var n := |found|;
    CompactRecsPrefix(ks[..k], m, n);
    assert ks[..k][..n] == ks[..n] && found == recs[..n];
    assert CopiedKeys(ks[..n], m, found);
  }

  lemma IdleAttempted(w: Writer)
    requires w.phase == Idle
    ensures Attempted(w) == w.acked
  {
  }

  /** An append to the output that does not go through. */
  lemma CopyStopped(w: Writer, x: Writer, key: seq<Byte>, value: seq<Byte>, io: WriteOutcome)
    requires AppendStep(w, x, RecordType.Put, key, value, io) && Inv(w) && w.phase == Idle && |w.dir| == 1
    requires !Accepts(w, key, value, io)
    ensures Inv(x) && |x.dir| == 1
    ensures Attempted(x) != w.acked ==>
      && |key| <= MAX_KEY_LEN && |value| <= MAX_PAYLOAD_LEN
      && Attempted(x) == w.acked + [Rec(RecordType.Put, w.nextTxid, key, value)]
  {
    hide Inv, Frame;
    InvStays(w, x, RecordType.Put, key, value, io);
    AcceptsMeans(w, RecordType.Put, key, value, io);
    IdleAttempted(w);
  }

  lemma OneHasNoHole(d: Dir)
    requires |d| == 1
    ensures HoleFree(d)
  {
    assert Front(d) == [] && Entered([]);
  }

  lemma InvStaysPut(w: Writer)
    requires Inv(w) && |w.dir| == 1
    ensures CrashTo(w.dir, w.dir)
  {
    hide Guaranteed;
    StaysPut(w.dir);
  }

  lemma OutputSurvives(w: Writer, ks: seq<seq<Byte>>, m: Values)
    requires Inv(w) && |w.dir| == 1 && Enumerates(ks, m.Keys) && PartOf(ks, m, Attempted(w))
    ensures PartlyCompacted(m, w.dir)
  {
    hide Inv, CrashTo, ScanDir, Listed, Found, PartOf, Attempted, Enumerates, HoleFree;
    OneHasNoHole(w.dir);
    InvStaysPut(w);
    forall e: Dir | e == w.dir || CrashTo(w.dir, e)
      ensures ScanDir(Listed(e)).error.None? && PartOf(ks, m, Found(e))
    {
      CrashOpens(w, e);
      PartPrefix(ks, m, Attempted(w), Found(e));
    }
  }

  lemma ForcedOutput(w: Writer, fileOk: bool, dirOk: bool, ks: seq<seq<Byte>>, m: Values)
    requires Inv(w) && w.phase == Idle && |w.dir| == 1 && Enumerates(ks, m.Keys) && PartOf(ks, m, Attempted(w))
    ensures PartlyCompacted(m, Fsynced(w, fileOk, dirOk).dir)
  {
    hide Inv, PartOf, Enumerates, PartlyCompacted;
    FsyncKeepsInv(w, fileOk, dirOk);
    var x := Fsynced(w, fileOk, dirOk);
    assert Attempted(x) == w.acked + [] == w.acked;
    IdleAttempted(w);
    OutputSurvives(x, ks, m);
  }

  lemma NewCrash(e: Dir)
    requires e == [] || e == [NewSegment(1)] || CrashTo([], e) || CrashTo([NewSegment(1)], e)
    ensures e == [] || (|e| == 1 && e[0].id == 1 && e[0].bytes == [])
  {
    var d := [NewSegment(1)];
    assert Front(d) == [];
    if e != [] {
      assert e == Front(e) + [Last(e)];
    }
  }

  lemma NewFindsNothing(e: Dir)
    requires e == [] || (|e| == 1 && e[0].id == 1 && e[0].bytes == [])
    ensures ScanDir(Listed(e)).error.None? && Found(e) == []
  {
    hide Parse, ScanDir, Listed, DirRecs, Clean, Strip;
    NothingParsed();
    ListedAll(e);
    if e != [] {
      assert AllClean(Front(e)) && Front(e) == [];
      DirRecsSplit(e);
    }
    NothingScanned([]);
    FoundIs(e);
  }

  /** A target in which nothing has been written, with or without its first segment. */
  lemma NothingCompacted(ks: seq<seq<Byte>>, m: Values)
    requires Enumerates(ks, m.Keys)
    ensures PartlyCompacted(m, []) && PartlyCompacted(m, [NewSegment(1)])
  {
    hide Enumerates, ScanDir, Listed, Found;
    assert ks[..0] == [] && CopiedKeys([], m, []);
    assert PartOf(ks, m, []);
    forall e: Dir | e == [] || e == [NewSegment(1)] || CrashTo([], e) || CrashTo([NewSegment(1)], e)
      ensures ScanDir(Listed(e)).error.None? && Found(e) == []
    {
      NewCrash(e);
      NewFindsNothing(e);
    }
  }

  lemma LogIsApart(store: DataWal, outLog: RecordLog)
    requires store.Usable() && outLog !in store.Repr
    ensures outLog != store.log
  {
  }

  lemma OutIsApart(store: DataWal, out: Directory)
    requires store.Usable() && out.segs == []
    ensures out !in store.Repr && out != store.log.dir
  {
  }

  /** What holds before the target is opened. */
  lemma ReadyToCopy(ks: seq<seq<Byte>>, refs: Refs, m: Values)
    requires Enumerates(ks, refs.Keys)
    ensures |ks| == |refs|
    ensures refs.Keys == m.Keys ==>
      |ks| == |m| && Enumerates(ks, m.Keys) && PartlyCompacted(m, []) && PartlyCompacted(m, [NewSegment(1)])
    ensures Splits([], []) && ScanDir(OpenDir([])).error.None?
  {
    hide Enumerates, PartlyCompacted;
    EnumerationSize(ks, refs.Keys);
    if refs.Keys == m.Keys {
      NothingCompacted(ks, m);
    }
    EmptyListed();
    FreshOpens();
  }

  /** As long as the whole compaction fits, there is room for the next record. */
  lemma CompactRoom(ks: seq<seq<Byte>>, m: Values, i: nat, w: Writer)
    requires FitsCounters(m) && Enumerates(ks, m.Keys) && i < |ks| && w.phase == Idle && w.nextTxid == i + 1
    requires Copied(ks[..i], m, w.acked) && w.activeSize == |Frames(w.acked)|
    ensures ks[i] in m && Accepts(w, ks[i], m[ks[i]], Written)
  {
    hide Frame, Frames, CompactRecs, Enumerates;
    EnumeratedKeys(ks, m);
    assert CompactsTo(m, Frames(CompactRecs(ks, m)));
    var rec := Rec(RecordType.Put, i + 1, ks[i], m[ks[i]]);
    CompactRecsNext(ks, m, i);
    CompactRecsPrefix(ks, m, i + 1);
    FramesSnoc(CompactRecs(ks[..i], m), rec);
    AcceptsMeans(w, RecordType.Put, ks[i], m[ks[i]], Written);
  }

  lemma OneSegment(w: Writer)
    requires |w.dir| == 1 && Clean(w.dir[0].bytes) && DirRecs(w.dir) == w.acked
    ensures w.dir[0].bytes == Frames(w.acked)
  {
    hide Frames, DirRecs, ScanDir;
    var b := w.dir[0].bytes;
    NothingScanned(Front(w.dir));
    DirRecsSplit(w.dir);
    hide Parse;
    ParsedAreFrames(b);
    assert b[..|b|] == b && [] + Parse(b).recs == Parse(b).recs;
  }

  lemma ForcedIsSettled(d: Dir)
    requires |d| == 1 && Ordered(d) && Last(d).id < ID_LIMIT && Clean(d[0].bytes)
    ensures var e := SyncEntries(SyncLast(d));
      |e| == 1 && e[0].bytes == d[0].bytes && Settled(e) && e[0].entry && e[0].synced == |e[0].bytes|
  {
    hide Parse;
  }

  lemma ForallKeys(ks: seq<seq<Byte>>, m: Values)
    requires Enumerates(ks, m.Keys)
    requires forall k <- ks :: k in m && |k| <= MAX_KEY_LEN && |m[k]| <= MAX_PAYLOAD_LEN
    ensures forall k <- m :: |k| <= MAX_KEY_LEN && |m[k]| <= MAX_PAYLOAD_LEN
  {
  }

  /** The log of all live keys, once it is forced to disk. */
  lemma CompactDone(w: Writer, ks: seq<seq<Byte>>, m: Values)
    requires Inv(w) && w.phase == Idle && |w.dir| == 1 && Enumerates(ks, m.Keys) && Copied(ks, m, w.acked)
    ensures var x := Fsynced(w, true, true);
      && |x.dir| == 1 && x.dir[0].bytes == Frames(w.acked) && CompactsTo(m, x.dir[0].bytes) && Settled(x.dir)
      && x.dir[0].entry && x.dir[0].synced == |x.dir[0].bytes|
  {
    hide Inv, Frames, CompactRecs, Enumerates, Ordered, Settled, SyncLast, SyncEntries, Clean, DirRecs;
    IdleFacts(w);
    OneSegment(w);
    ForcedIsSettled(w.dir);
    EnumeratedKeys(ks, m);
    ForallKeys(ks, m);
  }

  class DataWal {
    const log: RecordLog
    var refs: Refs
    const fdPool: FdPool
    /** The acknowledged records with their places. */
    ghost var placed: seq<Record>

    ghost const Repr: set<object>

    /** What holds of every open store: the parts are in order and every open file exists. */
    ghost predicate Usable()
      reads this, Repr
    {
      && Repr == {this, log, log.dir, fdPool}
      && log.Valid() && log.dir.segs != [] && Ordered(log.dir.segs) && fdPool.Valid()
      && (forall open <- fdPool.entries :: Lookup(log.dir.segs, open).Some?)
    }

    /**
     What holds of every store that was opened, over a torn tail or not: the keydir is that of the
     acknowledged records, and those stand where their refs say. Only an append that goes through
     over torn bytes ends it.
     */
    ghost predicate Readable()
      reads this, Repr
    {
      && Usable()
      && Strip(placed) == log.acked && refs == KeydirOf(placed)
      && (forall r <- placed :: Placed(log.dir.segs, r))
    }

    /**
     What holds of a store opened over a clean tail: besides, the writer keeps its invariant, and
     unless the writer is poisoned the keydir is the one a rebuild from disk would give.
     */
    ghost predicate Valid()
      reads this, Repr
    {
      && Readable() && Inv(log.Abs())
      && (log.poisoned.None? ==> placed == DirRecords(log.dir.segs))
    }

    /** The active segment ends where the handle thinks it ends. */
    ghost predicate NoGap()
      reads this, Repr
    {
      Repr == {this, log, log.dir, fdPool} && log.dir.segs != [] && |Last(log.dir.segs).bytes| == log.activeSize
    }

    /** The live values. */
    ghost function Values(): Values
      reads this, log
    {
      Project(log.acked)
    }

    constructor Init(log: RecordLog, refs: Refs, fdPool: FdPool)
      requires log.Valid() && Ordered(log.dir.segs) && fdPool.Valid() && fdPool.entries == []
      requires refs == KeydirOf(DirRecords(log.dir.segs)) && Strip(DirRecords(log.dir.segs)) == log.acked
      requires log.poisoned.None?
      ensures this.log == log && this.fdPool == fdPool && this.refs == refs && Readable()
      ensures Inv(log.Abs()) ==> Valid()
      ensures Values() == Project(log.acked)
    {
      hide Inv, KeydirOf, Strip, Placed, Lookup, Ordered, Project, DirRecords, Kept;
      RecordsPlaced(log.dir.segs);
      this.log, this.refs, this.fdPool := log, refs, fdPool;
      placed := DirRecords(log.dir.segs);
      Repr := {this, log, log.dir, fdPool};
      new;
    }

    static method Open(dir: Directory, createOk: bool, dirOk: bool) returns (r: Result<DataWal, KvError>)
      requires Splits(dir.segs, dir.others)
      modifies dir
      ensures r.Ok? <==> ScanDir(OpenDir(old(dir.segs))).error.None? && (old(dir.segs) == [] ==> createOk && dirOk)
      ensures r.Ok? ==> fresh(r.value) && r.value.Readable() && r.value.log.dir == dir && dir.segs == OpenDir(old(dir.segs))
      ensures r.Ok? ==> r.value.log.Abs() == OpenWriter(old(dir.segs), [])
      ensures r.Ok? ==> r.value.refs == KeydirOf(DirRecords(dir.segs)) && r.value.Values() == Project(DirRecs(dir.segs))
      ensures r.Ok? && (old(dir.segs) == [] || Settled(old(dir.segs))) ==> r.value.Valid()
      ensures r.Ok? ==> r.value.fdPool.capacity == 16 && r.value.fdPool.entries == []
      ensures r.Err? && old(dir.segs) == [] ==> r == Err(LogRefused(if createOk then SyncDirFailed else CreateFailed))
      ensures r.Err? && old(dir.segs) == [] ==> dir.segs == if createOk then [NewSegment(1)] else []
      ensures r.Err? && old(dir.segs) != [] ==>
        && dir.segs == old(dir.segs) && r.error.LogRefused? && r.error.logError.ScanFailed?
        && ScanDir(dir.segs).error == Some(r.error.logError.scanError)
    {
      hide ScanDir, KeydirOf, Project, DirRecords, DirRecs, OpenWriter, Settled, Strip, Listed;
      OpenDirFacts(dir.segs);
      var log := RecordLog.Open(dir, createOk, dirOk);
      if log.Err? {
        return Err(LogRefused(log.error));
      }
      var refs := RebuildKeydir(log.value);
      OpenedRecords(old(dir.segs));
      // The replay reads what the open has just scanned, so its error branch cannot be taken.
      if refs.Err? {
        assert false;
      }
      var pool := new FdPool(DEFAULT_CAPACITY);
      ghost var clean := old(dir.segs) == [] || Settled(old(dir.segs));
      if clean {
        StartsClean(old(dir.segs));
      }
      var store := new DataWal.Init(log.value, refs.value, pool);
      return Ok(store);
    }

    function Len(): nat
      reads this
    {
      |refs|
    }

    predicate ContainsKey(key: seq<Byte>)
      reads this
    {
      key in refs
    }

    function RefOf(key: seq<Byte>): Option<RecordRef>
      reads this
    {
      if key in refs then Some(refs[key]) else None
    }

    /** Reads the live value of a key through the pool; canOpen is the outcome of opening its file. */
    method Get(key: seq<Byte>, canOpen: bool) returns (r: Result<Option<seq<Byte>>, KvError>)
      requires Usable()
      modifies fdPool
      ensures Usable() && (old(Readable()) ==> Readable()) && (old(Valid()) ==> Valid())
      ensures old(Readable()) && (canOpen || r.Ok?) ==> r == Ok(if key in Values() then Some(Values()[key]) else None)
      ensures r == Ok(None) <==> key !in refs
      ensures r.Ok? && r.value.Some? ==>
        var place := refs[key];
        exists q: Rec :: q.kind.Put? && q.payload == r.value.value && |Frame(q)| == place.len
          && Lookup(log.dir.segs, place.segment).Some? && StartsAt(Lookup(log.dir.segs, place.segment).value, place.offset, Frame(q))
      ensures key in refs ==>
        r == if refs[key].segment !in old(fdPool.entries) && !canOpen
             then Err(ReadFailed(PoolFailed(PoolError.OpenFailed(refs[key].segment))))
             else match ReadValue(log.dir.segs, refs, key) case Ok(v) => Ok(v) case Err(e) => Err(ReadFailed(e))
      ensures r.Err? ==> r.error.ReadFailed? && !r.error.getError.KeydirDesync?
      ensures fdPool.history == if key in refs && (refs[key].segment in old(fdPool.entries)
                                                   || (canOpen && Lookup(log.dir.segs, refs[key].segment).Some?))
                                then old(fdPool.history) + [refs[key].segment] else old(fdPool.history)
    {
      hide Lookup, Inv, KeydirOf, Project, DirRecords, Strip, Placed, ReadFile, DecodePayloadForGet, Ordered, Frame, StartsAt;
      if key in refs && ReadValue(log.dir.segs, refs, key).Ok? && ReadValue(log.dir.segs, refs, key).value.Some? {
        ReadValueIff(log.dir.segs, refs, key, ReadValue(log.dir.segs, refs, key).value.value);
      }
      NeverDesync(log.dir.segs, refs, key);
      ghost var readable := Readable();
      if readable {
        KeydirServes(log.dir.segs, placed, key);
      }
      if key !in refs {
        return Ok(None);
      }
      var place := refs[key];
      var bytes := fdPool.ReadAt(log.dir.segs, place.segment, place.offset, place.len, canOpen);
      if bytes.Err? {
        return Err(ReadFailed(PoolFailed(bytes.error)));
      }
      var value := DecodePayloadForGet(bytes.value, place);
      if value.Err? {
        return Err(ReadFailed(value.error));
      }
      return Ok(Some(value.value));
    }

    /** All live pairs, in whatever order the keys come. */
    method Items(canOpen: bool) returns (r: Result<seq<(seq<Byte>, seq<Byte>)>, KvError>)
      requires Usable()
      modifies fdPool
      ensures Usable() && (old(Readable()) ==> Readable()) && (old(Valid()) ==> Valid())
      ensures old(Readable()) && canOpen ==> r.Ok?
      ensures r.Err? ==> r.error.ReadFailed? && !r.error.getError.KeydirDesync?
      ensures old(Readable()) && r.Ok? ==>
        && (forall i :: 0 <= i < |r.value| ==> r.value[i].0 in Values() && Values()[r.value[i].0] == r.value[i].1)
        && (forall i, j :: 0 <= i < j < |r.value| ==> r.value[i].0 != r.value[j].0)
        && (forall key <- Values() :: exists i :: 0 <= i < |r.value| && r.value[i].0 == key)
    {
      hide Lookup, Inv, KeydirOf, Project, DirRecords, Strip, Placed, Ordered, Usable, Readable, Valid, ReadValue, Frame, StartsAt;
      var pending := refs.Keys;
      var out: seq<(seq<Byte>, seq<Byte>)> := [];
      ghost var values, readable, clean := Values(), Readable(), Valid();
      while pending != {}
        invariant Usable() && (readable ==> Readable()) && (clean ==> Valid()) && Values() == values && refs == old(refs)
        invariant readable ==> forall i :: 0 <= i < |out| ==> out[i].0 in values && values[out[i].0] == out[i].1
        invariant forall i :: 0 <= i < |out| ==> out[i].0 !in pending
        invariant forall i, j :: 0 <= i < j < |out| ==> out[i].0 != out[j].0
        invariant forall key <- refs.Keys - pending :: exists i :: 0 <= i < |out| && out[i].0 == key
        invariant pending <= refs.Keys
        decreases pending
      {
        var key :| key in pending;
        if readable {
          KeysAgree(this);
        }
        var value := Get(key, canOpen);
        if value.Err? {
          return Err(value.error);
        }
        if value.value.None? {
          return Err(ReadFailed(KeydirDesync));
        }
        ghost var before, left := out, pending;
        out := out + [(key, value.value.value)];
        pending := pending - {key};
        assert out[|before|].0 == key;
        forall k <- refs.Keys - pending
          ensures exists i :: 0 <= i < |out| && out[i].0 == k
        {
          if k != key {
            assert k in refs.Keys - left;
            var i :| 0 <= i < |before| && before[i].0 == k;
            assert out[i].0 == k;
          }
        }
      }
      if readable {
        KeysAgree(this);
        assert forall key <- Values() :: key in refs.Keys - pending;
      }
      return Ok(out);
    }

    /** A refused or failed append leaves the keydir and the values as they were. */
    method Put(key: seq<Byte>, value: seq<Byte>, io: WriteOutcome) returns (r: Result<(), KvError>)
      requires Usable()
      modifies this, log, log.dir
      ensures Usable() && (old(Valid()) ==> Valid())
      ensures old(Readable()) && (r.Err? || old(NoGap())) ==> Readable()
      ensures r.Ok? <==> Accepts(old(log.Abs()), key, value, io)
      ensures AppendStep(old(log.Abs()), log.Abs(), RecordType.Put, key, value, io)
      ensures r == if old(log.poisoned).Some? then Err(LogRefused(WriterPoisoned(old(log.poisoned).value)))
                   else if |key| > 65_536 then Err(LogRefused(EncodeFailed(KeyOverCap)))
                   else if |value| > 67_108_864 then Err(LogRefused(EncodeFailed(PayloadOverCap)))
                   else if io.Stopped? then Err(LogRefused(WriteFailed))
                   else if old(log.activeSize) + 28 + |key| + |value| > U64_MAX then Err(LogRefused(SizeOverflow))
                   else if old(log.nextTxid) == U64_MAX then Err(LogRefused(TxidOverflow(U64_MAX)))
                   else Ok(())
      ensures r.Ok? ==>
        refs == old(refs)[key := RecordRef(old(log.activeId), old(log.activeSize), RecordWireSize(|key|, |value|))]
      ensures r.Err? ==> refs == old(refs)
      ensures Values() == if r.Ok? then old(Values())[key := value] else old(Values())
    {
      hide Lookup, Inv, KeydirOf, Project, DirRecords, Strip, Placed, Ordered, Frame, Runs, AppendResult, Extend, Grown,
        DirRecs, Clean, Appended, ProjectOne, KeydirOne;
      ghost var w := log.Abs();
      AcceptsMeans(w, RecordType.Put, key, value, io);
      var place := log.AppendRecord(RecordType.Put, key, value, io);
      StoreAppend(w, log.Abs(), RecordType.Put, key, value, io, placed, fdPool.entries);
      if place.Err? {
        return Err(LogRefused(place.error));
      }
      refs := refs[key := place.value];
      ghost var rec := Rec(RecordType.Put, w.nextTxid, key, value);
      ghost var record := Record(rec, w.activeId, w.activeSize, |Frame(rec)|);
      PutOnMaps(KeydirOf(placed), Project(w.acked), record);
      placed := placed + [record];
      return Ok(());
    }

    /** Deleting an absent key still writes the tombstone. */
    method Delete(key: seq<Byte>, io: WriteOutcome) returns (r: Result<(), KvError>)
      requires Usable()
      modifies this, log, log.dir
      ensures Usable() && (old(Valid()) ==> Valid())
      ensures old(Readable()) && (r.Err? || old(NoGap())) ==> Readable()
      ensures r.Ok? <==> Accepts(old(log.Abs()), key, [], io)
      ensures AppendStep(old(log.Abs()), log.Abs(), RecordType.Delete, key, [], io)
      ensures r == if old(log.poisoned).Some? then Err(LogRefused(WriterPoisoned(old(log.poisoned).value)))
                   else if |key| > 65_536 then Err(LogRefused(EncodeFailed(KeyOverCap)))
                   else if io.Stopped? then Err(LogRefused(WriteFailed))
                   else if old(log.activeSize) + 28 + |key| > U64_MAX then Err(LogRefused(SizeOverflow))
                   else if old(log.nextTxid) == U64_MAX then Err(LogRefused(TxidOverflow(U64_MAX)))
                   else Ok(())
      ensures refs == if r.Ok? then old(refs) - {key} else old(refs)
      ensures Values() == if r.Ok? then old(Values()) - {key} else old(Values())
    {
      hide Lookup, Inv, KeydirOf, Project, DirRecords, Strip, Placed, Ordered, Frame, Runs, AppendResult, Extend, Grown,
        DirRecs, Clean, Appended, ProjectOne, KeydirOne;
      ghost var w := log.Abs();
      AcceptsMeans(w, RecordType.Delete, key, [], io);
      var place := log.AppendRecord(RecordType.Delete, key, [], io);
      StoreAppend(w, log.Abs(), RecordType.Delete, key, [], io, placed, fdPool.entries);
      if place.Err? {
        return Err(LogRefused(place.error));
      }
      refs := refs - {key};
      ghost var rec := Rec(RecordType.Delete, w.nextTxid, key, []);
      ghost var record := Record(rec, w.activeId, w.activeSize, |Frame(rec)|);
      DeleteOnMaps(KeydirOf(placed), Project(w.acked), record);
      placed := placed + [record];
      return Ok(());
    }

    /** Reads one live value and appends it to the output log of a compaction. */
    method CopyTo(outLog: RecordLog, key: seq<Byte>, canOpen: bool, write: WriteOutcome) returns (r: Result<nat, KvError>)
      requires Usable() && {outLog, outLog.dir} !! Repr
      requires outLog.Valid() && outLog.poisoned.None? && Inv(outLog.Abs()) && |outLog.dir.segs| == 1
      modifies fdPool, outLog, outLog.dir
      ensures Usable() && (old(Readable()) ==> Readable()) && (old(Valid()) ==> Valid())
      ensures outLog.Valid() && Inv(outLog.Abs()) && |outLog.dir.segs| == 1
      ensures r.Ok? ==>
        && outLog.poisoned.None?
        && outLog.nextTxid == old(outLog.nextTxid) + 1 && outLog.activeSize == old(outLog.activeSize) + r.value
      ensures r.Err? && Attempted(outLog.Abs()) != old(outLog.acked) && old(Readable()) ==>
        && key in Values() && |key| <= MAX_KEY_LEN && |Values()[key]| <= MAX_PAYLOAD_LEN
        && Attempted(outLog.Abs()) == old(outLog.acked) + [Rec(RecordType.Put, old(outLog.nextTxid), key, Values()[key])]
      ensures r.Ok? && old(Readable()) ==>
        && key in Values() && |key| <= MAX_KEY_LEN && |Values()[key]| <= MAX_PAYLOAD_LEN
        && outLog.acked == old(outLog.acked) + [Rec(RecordType.Put, old(outLog.nextTxid), key, Values()[key])]
        && |Frames(outLog.acked)| == |Frames(old(outLog.acked))| + r.value
      ensures old(Readable()) && key in Values() && canOpen && Accepts(old(outLog.Abs()), key, Values()[key], write) ==> r.Ok?
      ensures if r.Ok? then write.Written? else !r.error.TargetNotEmpty?
      ensures Values() == old(Values())
    {
      hide Inv, KeydirOf, Project, DirRecords, DirRecs, Strip, Placed, Ordered, Runs, AppendResult, Lookup, Frame, Frames,
        Extend, RecordWireSize, Attempted, Guaranteed, Entered, Usable, Readable, Valid, ReadValue, StartsAt;
      LogIsApart(this, outLog);
      IdleAttempted(outLog.Abs());
      var v := Get(key, canOpen);
      if v.Err? {
        return Err(v.error);
      }
      if v.value.None? {
        return Err(ReadFailed(KeydirDesync));
      }
      ghost var w := outLog.Abs();
      AcceptsMeans(w, RecordType.Put, key, v.value.value, write);
      var p := outLog.AppendRecord(RecordType.Put, key, v.value.value, write);
      if p.Err? {
        CopyStopped(w, outLog.Abs(), key, v.value.value, write);
        return Err(LogRefused(p.error));
      }
      CompactStep(w, key, v.value.value, write);
      return Ok(p.value.len);
    }

    /** Copies the given live keys, in order, to an output log that is still empty. */
    method CopyAll(outLog: RecordLog, ks: seq<seq<Byte>>, io: CompactOutcome) returns (r: Result<nat, KvError>)
      requires Usable() && {outLog, outLog.dir} !! Repr
      requires outLog.Valid() && outLog.poisoned.None? && Inv(outLog.Abs()) && |outLog.dir.segs| == 1
      requires outLog.nextTxid == 1 && outLog.activeSize == 0 && outLog.acked == []
      requires Readable() ==> Enumerates(ks, Values().Keys)
      modifies fdPool, outLog, outLog.dir
      ensures Usable() && (old(Readable()) ==> Readable()) && (old(Valid()) ==> Valid())
      ensures outLog.Valid() && Inv(outLog.Abs()) && |outLog.dir.segs| == 1 && (r.Ok? ==> outLog.poisoned.None?)
      ensures old(Readable()) ==> PartOf(ks, Values(), Attempted(outLog.Abs()))
      ensures r.Ok? && old(Readable()) ==> Copied(ks, Values(), outLog.acked) && r.value == |Frames(outLog.acked)|
      ensures if r.Ok? then forall i: nat :: i < |ks| ==> io.writes(i).Written? else !r.error.TargetNotEmpty?
      ensures old(Readable()) && AllWell(io) && FitsCounters(Values()) ==> r.Ok?
    {
      hide Inv, KeydirOf, Project, DirRecords, DirRecs, Strip, Placed, Ordered, Runs, Lookup, CompactsTo, CompactRecs,
        Enumerates, Frame, Frames, Extend, RecordWireSize, Copied, Attempted, PartOf, Valid, FitsCounters, AppendStep, Accepts, Usable,
        Readable;
      ghost var readable, clean, m := Readable(), Valid(), Values();
      if readable {
        ProjectStorable(log.acked);
        EnumeratedKeys(ks, m);
        CopiedNone(ks, m);
      }
      var bytes: nat := 0;
      for i := 0 to |ks|
        invariant Usable() && (readable ==> Readable()) && (clean ==> Valid())
        invariant outLog.Valid() && outLog.poisoned.None? && Inv(outLog.Abs()) && |outLog.dir.segs| == 1
        invariant outLog.nextTxid == i + 1 && bytes == outLog.activeSize && Values() == m
        invariant forall j: nat :: j < i ==> io.writes(j).Written?
        invariant readable ==> Copied(ks[..i], m, outLog.acked) && bytes == |Frames(outLog.acked)|
      {
        ghost var before := outLog.acked;
        if readable && FitsCounters(m) {
          CompactRoom(ks, m, i, outLog.Abs());
        }
        var copied := CopyTo(outLog, ks[i], io.canOpen, io.writes(i));
        if copied.Err? {
          if readable {
            CopiedPart(ks, m, i, before);
            if Attempted(outLog.Abs()) != before {
              NextPart(ks, m, i, before);
            }
          }
          return Err(copied.error);
        }
        if readable {
          CopiedNext(ks, m, i, before);
        }
        bytes := bytes + copied.value;
      }
      assert ks[..|ks|] == ks;
      IdleAttempted(outLog.Abs());
      if readable {
        CopiedPart(ks, m, |ks|, outLog.acked);
      }
      return Ok(bytes);
    }

    /** The copying loop of a compaction and the sync that ends it. */
    method CopyAndForce(outLog: RecordLog, ks: seq<seq<Byte>>, io: CompactOutcome) returns (r: Result<nat, KvError>)
      requires Usable() && {outLog, outLog.dir} !! Repr
      requires outLog.Valid() && outLog.poisoned.None? && Inv(outLog.Abs()) && |outLog.dir.segs| == 1
      requires outLog.nextTxid == 1 && outLog.activeSize == 0 && outLog.acked == []
      requires Readable() ==> Enumerates(ks, Values().Keys)
      modifies fdPool, outLog, outLog.dir
      ensures Usable() && (old(Readable()) ==> Readable()) && (old(Valid()) ==> Valid())
      ensures old(Readable()) ==> PartlyCompacted(Values(), outLog.dir.segs)
      ensures r.Ok? && old(Readable()) ==>
        && |outLog.dir.segs| == 1 && CompactsTo(Values(), outLog.dir.segs[0].bytes) && Settled(outLog.dir.segs)
        && outLog.dir.segs[0].entry && outLog.dir.segs[0].synced == |outLog.dir.segs[0].bytes|
        && r.value == |outLog.dir.segs[0].bytes|
      ensures Values() == old(Values())
      ensures if r.Ok? then io.fileOk && io.dirOk && forall i: nat :: i < |ks| ==> io.writes(i).Written? else !r.error.TargetNotEmpty?
      ensures old(Readable()) && AllWell(io) && FitsCounters(Values()) ==> r.Ok?
    {
      hide Inv, KeydirOf, Project, DirRecords, DirRecs, Strip, Placed, Ordered, Runs, Lookup, Copied,
        CompactsTo, CompactRecs, Enumerates, Frame, Frames, Settled, FitsCounters, Fsynced, FsyncSteps, Attempted, PartOf,
        PartlyCompacted;
      ghost var readable, clean, m := Readable(), Valid(), Values();
      var copied := CopyAll(outLog, ks, io);
      if copied.Err? {
        if readable {
          OutputSurvives(outLog.Abs(), ks, m);
        }
        return Err(copied.error);
      }
      if readable {
        CompactDone(outLog.Abs(), ks, m);
        ForcedOutput(outLog.Abs(), io.fileOk, io.dirOk, ks, m);
      }
      var forced := outLog.Fsync(io.fileOk, io.dirOk);
      if forced.Err? {
        return Err(LogRefused(forced.error));
      }
      return Ok(copied.value);
    }

    /**
     Writes the live values to an empty directory. However it ends, the target opens, and a power
     loss leaves it so, on the first of the records of a complete compaction.
     */
    method CompactTo(out: Directory, io: CompactOutcome) returns (r: Result<CompactionStats, KvError>)
      requires Usable()
      modifies fdPool, out
      ensures r == Err(TargetNotEmpty) <==> old(out.segs) != [] || out.others != []
      ensures r == Err(TargetNotEmpty) ==> out.segs == old(out.segs)
      ensures old(out.segs) == [] && out.others == [] && !(io.createOk && io.createDirOk) ==>
        r == Err(LogRefused(if io.createOk then SyncDirFailed else CreateFailed))
      ensures r.Ok? ==> io.createOk && io.createDirOk && io.fileOk && io.dirOk && forall i: nat :: i < Len() ==> io.writes(i).Written?
      ensures Usable() && (old(Readable()) ==> Readable()) && (old(Valid()) ==> Valid()) && log.dir.segs == old(log.dir.segs)
      ensures old(Readable()) && old(out.segs) == [] && out.others == [] ==> PartlyCompacted(Values(), out.segs)
      ensures old(Readable()) && r.Ok? ==>
        && |out.segs| == 1 && CompactsTo(Values(), out.segs[0].bytes) && Settled(out.segs)
        && out.segs[0].entry && out.segs[0].synced == |out.segs[0].bytes|
        && r.value == CompactionStats(|Values()|, |Values()|, |out.segs[0].bytes|)
      ensures old(Readable()) && old(out.segs) == [] && out.others == [] && AllWell(io) && FitsCounters(Values()) ==> r.Ok?
    {
      hide Inv, KeydirOf, Project, DirRecords, DirRecs, Strip, Placed, Ordered, Runs, OpenWriter, Lookup,
        CompactsTo, CompactRecs, Enumerates, Frame, Frames, ScanDir, Listed, OpenDir, Settled, FitsCounters, PartlyCompacted,
        Splits, Usable, Readable, Valid;
      ghost var readable, clean, m := Readable(), Valid(), Values();
      if out.segs != [] || out.others != [] {
        return Err(TargetNotEmpty);
      }
      var ks := SortedKeys(refs.Keys);
      if readable {
        KeysAgree(this);
      }
      ReadyToCopy(ks, refs, m);
      OutIsApart(this, out);
      var target := RecordLog.Open(out, io.createOk, io.createDirOk);
      if target.Err? {
        return Err(LogRefused(target.error));
      }
      FreshStart();
      var copied := CopyAndForce(target.value, ks, io);
      if copied.Err? {
        return Err(copied.error);
      }
      return Ok(CompactionStats(|ks|, |ks|, copied.value));
    }

    method Fsync(fileOk: bool, dirOk: bool) returns (r: Result<(), KvError>)
      requires Usable()
      modifies log, log.dir
      ensures Usable() && (old(Readable()) ==> Readable()) && (old(Valid()) ==> Valid()) && Values() == old(Values())
      ensures r == if old(log.poisoned).Some? then Err(LogRefused(WriterPoisoned(old(log.poisoned).value)))
                   else if !fileOk then Err(LogRefused(SyncFailed))
                   else if !dirOk then Err(LogRefused(SyncDirFailed))
                   else Ok(())
      ensures log.Abs() == if old(log.poisoned).Some? then old(log.Abs()) else Fsynced(old(log.Abs()), fileOk, dirOk)
      ensures r.Ok? ==> log.durable == log.acked
    {
      hide Lookup, Inv, KeydirOf, Project, DirRecords, Strip, Placed, Ordered, Runs, Fsynced, FsyncSteps, Grown;
      ghost var w, readable, clean := log.Abs(), Readable(), Valid();
      var done := log.Fsync(fileOk, dirOk);
      if w.phase == Idle {
        FsyncLeaves(w, fileOk, dirOk, fdPool.entries);
        if readable {
          PlacedStay(w.dir, log.dir.segs, placed);
        }
        if clean {
          FsyncKeepsInv(w, fileOk, dirOk);
        }
      }
      if done.Err? {
        return Err(LogRefused(done.error));
      }
      return Ok(());
    }
  }

  /** The accessors, which read nothing from disk, agree with the live values. */
  lemma AccessorsAgree(store: DataWal, key: seq<Byte>)
    requires store.Readable()
    ensures store.Len() == |store.Values()|
    ensures store.ContainsKey(key) <==> key in store.Values()
    ensures match store.RefOf(key)
      case None => key !in store.Values()
      case Some(place) => key in store.Values() && exists r <- store.placed ::
        r.Ref() == place && r.rec.kind.Put? && r.rec.key == key && r.rec.payload == store.Values()[key]
  {
    hide Lookup, Placed;
    KeysAgree(store);
    LiveIff(store.placed, key);
    if key in store.refs {
      var i: nat :| CarriesLive(store.placed, key, i);
      assert store.placed[i] in store.placed;
    }
  }
}
