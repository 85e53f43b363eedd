/** The key-value store over whole runs: offset keydir, segment bytes and log refine a plain map. */
module KvRuns {
  import opened Bytes
  import opened Format
  import opened Recovery
  import opened Segment
  import opened Scan
  import opened ScanFacts
  import opened Keydir
  import opened Writer
  import opened WriterInv
  import opened CrashSafety
  import opened Growth
  import opened Operations

  datatype Kv = Kv(w: Writer, refs: Refs)

  datatype KvOp =
    | PutOp(key: Key, value: Payload)
    | DeleteOp(key: Key)
    | RotateOp
    | ReopenOp

  /** The keydir over the log is the one that a rebuild from disk would give. */
  predicate KvInv(kv: Kv) {
    Inv(kv.w) && kv.w.phase == Idle && kv.refs == KeydirOf(DirRecords(kv.w.dir))
  }

  const ALL_WELL := RotateOutcome(true, true, Created, true, true)

  /** The operation has room: counters, segment ids, and a clean tail to reopen on. */
  predicate HasRoom(kv: Kv, op: KvOp) {
    && kv.w.dir != []
    && match op
       case PutOp(k, v) => AppendSucceeds(kv.w, Rec(Put, kv.w.nextTxid, k, v), Written)
       case DeleteOp(k) => AppendSucceeds(kv.w, Rec(Delete, kv.w.nextTxid, k, []), Written)
       case RotateOp => Last(kv.w.dir).id + 1 < ID_LIMIT
       case ReopenOp => Settled(kv.w.dir)
  }

  function KvApply(kv: Kv, op: KvOp): Kv
    requires HasRoom(kv, op)
  {
    var w := kv.w;
    var place := RecordRef(w.activeId, w.activeSize, 0);
    match op
    case PutOp(k, v) =>
      var r := Rec(Put, w.nextTxid, k, v);
      Kv(AppendResult(w, r, Written), kv.refs[k := place.(len := |Frame(r)|)])
    case DeleteOp(k) =>
      Kv(AppendResult(w, Rec(Delete, w.nextTxid, k, []), Written), kv.refs - {k})
    case RotateOp => kv.(w := Rotated(w, ALL_WELL))
    case ReopenOp =>
      var x := OpenWriter(w.dir, w.durable);
      Kv(x, KeydirOf(DirRecords(x.dir)))
  }

  /** What the same operation does to a plain map. */
  function PlainApply(m: Values, op: KvOp): Values {
    match op
    case PutOp(k, v) => m[k := v]
    case DeleteOp(k) => m - {k}
    case RotateOp => m
    case ReopenOp => m
  }

  predicate KvRuns(kv: Kv, ops: seq<KvOp>, last: Kv)
    decreases |ops|
  {
    if ops == [] then last == kv
    else HasRoom(kv, ops[0]) && KvRuns(KvApply(kv, ops[0]), ops[1..], last)
  }

  function PlainRun(m: Values, ops: seq<KvOp>): Values
    decreases |ops|
  {
    if ops == [] then m else PlainRun(PlainApply(m, ops[0]), ops[1..])
  }

  // ------------------------------------------------------------------ single operations

  lemma AppendHasNoRotate(kind: RecordType, key: Key, payload: Payload, len: nat, io: WriteOutcome)
    ensures forall a <- AppendSteps(kind, key, payload, len, io) :: !a.RotateCreate?
  {
  }

  /** What an idle handle that keeps the invariant looks like. */
  lemma IdleFacts(w: Writer)
    requires Inv(w) && w.phase == Idle
    ensures w.dir != [] && Ordered(w.dir) && Last(w.dir).id < ID_LIMIT && OnActive(w)
    ensures Clean(Last(w.dir).bytes) && w.activeId == Last(w.dir).id && w.activeSize == |Last(w.dir).bytes|
    ensures DirRecs(w.dir) == w.acked
  {
    hide Holds, DirRecs, Guaranteed;
    HoldsFacts(w.dir, w.acked, None);
    HeldRecovers(w.dir, w.acked, None);
  }

  /** An append on a clean idle handle: invariant kept, record added in place at the ref returned. */
  lemma AppendAdds(w: Writer, r: Rec)
    requires Inv(w) && w.phase == Idle && r.txid == w.nextTxid && w.dir != [] && AppendSucceeds(w, r, Written)
    ensures var x := AppendResult(w, r, Written);
      && Inv(x) && x.phase == Idle && x.acked == w.acked + [r] && Grown(w.dir, x.dir) && x.dir != []
      && DirRecords(x.dir) == DirRecords(w.dir) + [Record(r, w.activeId, w.activeSize, |Frame(r)|)]
      && DirRecs(x.dir) == x.acked
  {
    hide Inv, DirRecords, DirRecs, Frame, Extend, Runs, AppendSteps, Holds;
    IdleFacts(w);
    var steps := AppendSteps(r.kind, r.key, r.payload, |Frame(r)|, Written);
    AppendIsRun(w, r.kind, r.key, r.payload, Written);
    AppendHasNoRotate(r.kind, r.key, r.payload, |Frame(r)|, Written);
    NoRotateWithinLimit(w, steps);
    var x := AppendResult(w, r, Written);
    RunKeeps(w, steps, x);
    AppendPlaces(w.dir, r);
    IdleFacts(x);
    ExtendGrows(w.dir, Frame(r));
  }

  lemma CreateSecond(w: Writer, acts: seq<Action>)
    requires acts != [] && !acts[0].RotateCreate? && forall i :: 2 <= i < |acts| ==> !acts[i].RotateCreate?
    requires Enabled(w, acts[0]) && |acts| > 1 ==> WithinLimit(Apply(w, acts[0]), acts[1])
    ensures RunWithinLimit(w, acts)
  {
    hide Enabled, Apply;
    if Enabled(w, acts[0]) && |acts| > 1 {
      var w1 := Apply(w, acts[0]);
      if Enabled(w1, acts[1]) {
        assert forall i :: 0 <= i < |acts[1..][1..]| ==> acts[1..][1..][i] == acts[i + 2];
        NoRotateWithinLimit(Apply(w1, acts[1]), acts[1..][1..]);
      }
      assert RunWithinLimit(w1, acts[1..]);
    }
  }

  lemma RotateStaysWithin(w: Writer, io: RotateOutcome)
    requires w.phase == Idle && OnActive(w) && Last(w.dir).id + 1 < ID_LIMIT
    ensures RunWithinLimit(w, RotateSteps(w, io))
  {
    hide NextId, SyncEntries, SyncLast, RunWithinLimit, Frame, CrashTo, Settled, OpenWriter;
    SyncKeepsActive(w.dir);
    CreateSecond(w, RotateSteps(w, io));
  }

  lemma {:induction false} SameRecords(d: Dir, e: Dir)
    requires |d| == |e| && forall i :: 0 <= i < |d| ==> d[i].id == e[i].id && d[i].bytes == e[i].bytes
    ensures DirRecords(d) == DirRecords(e)
    decreases |d|
  {
    hide Parse, Place;
    if d != [] {
      SameRecords(Front(d), Front(e));
    }
  }

  lemma PlaceNone(id: U32)
    ensures Place([], id, 0) == []
  {
  }

  lemma RotatedRecords(d: Dir, s: Seg)
    requires d != [] && s.bytes == []
    ensures DirRecords(SyncEntries(SyncLast(d) + [s])) == DirRecords(d)
  {
    hide DirRecords, Parse, Place;
    var g := SyncLast(d) + [s];
    assert forall i :: 0 <= i < |d| - 1 ==> SyncLast(d)[i] == Front(SyncLast(d))[i] == d[i];
    SameRecords(g, SyncEntries(g));
    SameRecords(SyncLast(d), d);
    DirRecordsSplit(g);
    assert Front(g) == SyncLast(d) && Last(g) == s;
    FramesOfNone([]);
    FramesParse([]);
    PlaceNone(s.id);
    assert DirRecords(d) + [] == DirRecords(d);
  }

  /** A rotate keeps every record where it is. */
  lemma RotateKeepsRecords(w: Writer)
    requires Inv(w) && w.phase == Idle && w.dir != [] && Last(w.dir).id + 1 < ID_LIMIT
    ensures var x := Rotated(w, ALL_WELL);
      && Inv(x) && x.phase == Idle && x.acked == w.acked
      && DirRecords(x.dir) == DirRecords(w.dir) && DirRecs(x.dir) == DirRecs(w.dir)
  {
    hide Inv, DirRecords, DirRecs, Runs, NextId, Holds, RotateSteps, RunWithinLimit, Ordered, SyncEntries, SyncLast;
    IdleFacts(w);
    NextIdOf(w.dir);
    RotateIsRun(w, ALL_WELL);
    RotateStaysWithin(w, ALL_WELL);
    var x := Rotated(w, ALL_WELL);
    RunKeeps(w, RotateSteps(w, ALL_WELL), x);
    IdleFacts(x);
    RotatedRecords(w.dir, NewSegment(Last(w.dir).id + 1));
  }

  lemma SettledSynced(d: Dir)
    requires Settled(d)
    ensures forall i :: 0 <= i < |d| ==> d[i].synced <= |d[i].bytes|
  {
  }

  lemma ReopenKeeps(w: Writer)
    requires Inv(w) && w.dir != [] && Settled(w.dir)
    ensures Inv(OpenWriter(w.dir, w.durable))
  {
    hide Inv, OpenWriter, Settled, CrashTo, Guaranteed, Holds;
    var stay := w.dir;
    SettledSynced(stay);
    StaysPut(stay);
    RestartKeeps(w, stay);
  }

  /** Every operation keeps the keydir equal to a rebuild and acts on the values as on a plain map. */
  lemma KvStep(kv: Kv, op: KvOp)
    requires KvInv(kv) && HasRoom(kv, op)
    ensures KvInv(KvApply(kv, op))
    ensures Project(DirRecs(KvApply(kv, op).w.dir)) == PlainApply(Project(DirRecs(kv.w.dir)), op)
  {
    hide Inv, DirRecords, DirRecs, AppendResult, Rotated, OpenWriter, Frame, KeydirOf, Project, AppendSucceeds, Settled;
    var w, rs := kv.w, DirRecords(kv.w.dir);
    IdleFacts(w);
    match op
    case PutOp(k, v) =>
      var r := Rec(Put, w.nextTxid, k, v);
      AppendAdds(w, r);
      KeydirSnoc(rs, Record(r, w.activeId, w.activeSize, |Frame(r)|));
      ProjectSnoc(w.acked, r);
    case DeleteOp(k) =>
      var r := Rec(Delete, w.nextTxid, k, []);
      AppendAdds(w, r);
      KeydirSnoc(rs, Record(r, w.activeId, w.activeSize, |Frame(r)|));
      ProjectSnoc(w.acked, r);
    case RotateOp => RotateKeepsRecords(w);
    case ReopenOp =>
      ReopenKeeps(w);
      OpenSettled(w.dir, w.durable);
  }

  lemma {:induction false} KvRunKeeps(kv: Kv, ops: seq<KvOp>, last: Kv)
    requires KvInv(kv) && KvRuns(kv, ops, last)
    ensures KvInv(last) && Project(DirRecs(last.w.dir)) == PlainRun(Project(DirRecs(kv.w.dir)), ops)
    decreases |ops|
  {
    hide KvInv, HasRoom, KvApply, Project, DirRecs, PlainApply;
    if ops != [] {
      KvStep(kv, ops[0]);
      KvRunKeeps(KvApply(kv, ops[0]), ops[1..], last);
    }
  }

  /**
   Refinement: after any run of puts, deletes, rotates and reopens over clean tails, every key
   reads back through the offset keydir, the segment bytes and the frame decoder as it stands in
   the plain map that took the same operations; and the incremental keydir is the rebuilt one.
   */
  lemma KvRefinesMap(kv: Kv, ops: seq<KvOp>, last: Kv, key: seq<Byte>)
    requires KvInv(kv) && KvRuns(kv, ops, last)
    ensures var m := PlainRun(Project(DirRecs(kv.w.dir)), ops);
      ReadValue(last.w.dir, last.refs, key) == Ok(if key in m then Some(m[key]) else None)
    ensures last.refs == KeydirOf(DirRecords(last.w.dir))
  {
    hide Inv, KvRuns, Project, DirRecs, PlainRun, ReadValue, KeydirOf, DirRecords;
    KvRunKeeps(kv, ops, last);
    IdleFacts(last.w);
    DirectoryServes(last.w.dir, key);
  }

  /**
   An opened store reads every key as the projection of the records recovered, over a torn tail
   too; over an empty directory or a clean tail it starts in such a state.
   */
  lemma KvStarts(d: Dir, key: seq<Byte>)
    requires d == [] || Opens(d)
    ensures var w := OpenWriter(d, []); var refs := KeydirOf(DirRecords(w.dir));
      && ReadValue(w.dir, refs, key) == Ok(if key in Project(w.acked) then Some(Project(w.acked)[key]) else None)
      && (d == [] || Settled(d) ==> KvInv(Kv(w, refs)))
  {
    hide Inv, OpenWriter, Settled, DirRecords, KeydirOf, Project, ReadValue, DirRecs, Newest, ScanDir, Listed, Openable;
    if d == [] {
      FreshDirectory();
      FreshKeeps([]);
      FreshIsOpened([]);
      OpenSettled(OpenDir([]), []);
      DirectoryServes(OpenDir([]), key);
    } else {
      OpenResumes(d, []);
      DirectoryServes(d, key);
      if Settled(d) {
        StartKeeps(d);
        OpenSettled(d, []);
      }
    }
  }
}
