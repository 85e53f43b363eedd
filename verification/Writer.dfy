/**
 The log writer as a state machine over the sub-steps of its operations. A step is one call
 into the operating system, or one piece of bookkeeping between two such calls, and carries the
 outcome the operating system chose. A power loss may come between any two steps.
 */
module Writer {
  import opened Bytes
  import opened Format
  import opened Recovery
  import opened Segment
  import opened Scan
  import opened ScanFacts

  /** A record whose frame is being written, and how many bytes of it are in the file. */
  datatype Pending = Pending(rec: Rec, written: nat)

  datatype Phase =
    | Idle
    | Appending(pending: Pending)
    | FsyncedFile
    | RotateSynced
    | RotateCreated
    | RotateEntered
    | Poisoned(left: Option<Pending>)

  /**
   The writer handle and its directory. acked holds the records recovered at open followed by
   those whose append returned; durable is acked as it stood at the last point at which the
   writer promised durability.
   */
  datatype Writer = Writer(
    dir: Dir, phase: Phase, activeId: U32, activeSize: nat, nextTxid: U64, acked: seq<Rec>, durable: seq<Rec>)

  datatype CreateOutcome = Created | FailedAfterCreate | FailedBeforeCreate

  datatype Action =
    | BeginAppend(kind: RecordType, key: Key, payload: Payload)
    | WriteBytes(count: nat)
    | FinishAppend
    | FailAppend
    | FsyncFile(ok: bool)
    | FsyncEntries(ok: bool)
    | RotateSync(ok: bool)
    | RotateGiveUp
    | RotateRefuse
    | RotateCreate(outcome: CreateOutcome)
    | RotateEnter(ok: bool)
    | RotateSwitch(ok: bool)
    | Restart(survivor: Dir)

  // ------------------------------------------------------------------ the directory

  function WithLast(d: Dir, s: Seg): (r: Dir)
    requires d != []
    ensures |r| == |d| && Front(r) == Front(d) && Last(r) == s
  {
    Front(d) + [s]
  }

  function Extend(d: Dir, b: seq<Byte>): Dir
    requires d != []
  {
    WithLast(d, Last(d).(bytes := Last(d).bytes + b))
  }

  function SyncLast(d: Dir): Dir
    requires d != []
  {
    WithLast(d, Last(d).(synced := |Last(d).bytes|))
  }

  /** A sync of the directory makes every entry durable. */
  function SyncEntries(d: Dir): (r: Dir)
    ensures |r| == |d|
    ensures forall i :: 0 <= i < |d| ==> r[i] == d[i].(entry := true)
    decreases |d|
  {
    if d == [] then [] else SyncEntries(Front(d)) + [Last(d).(entry := true)]
  }

  function NewSegment(id: U32): Seg {
    Seg(id, [], 0, false)
  }

  /** The id that rotate picks: one above the largest listed id. */
  function NextId(d: Dir): Result<U32, IdError> {
    NextSegmentId(Ids(Listed(d)))
  }

  /** What a power loss may leave of one file: at least the synced part, never new bytes. */
  predicate Survives(s: Seg, t: Seg) {
    && t.id == s.id && t.bytes <= s.bytes
    && s.synced <= |t.bytes| && s.synced <= t.synced <= |t.bytes|
    && (s.entry ==> t.entry)
  }

  /** What a power loss may leave of a directory: a file may vanish while its entry is not durable. */
  predicate CrashTo(d: Dir, e: Dir)
    decreases |d|
  {
    if d == [] then e == []
    else
      || (e != [] && Survives(Last(d), Last(e)) && CrashTo(Front(d), Front(e)))
      || (!Last(d).entry && CrashTo(Front(d), e))
  }

  /** A directory of listed segments that a handle opens, with or without a torn tail. */
  predicate Opens(d: Dir) {
    d != [] && Ordered(d) && Last(d).id < ID_LIMIT && Openable(d)
  }

  /** A directory on which a handle starts without a torn tail. Nothing is said of directory entries. */
  predicate Settled(d: Dir) {
    && d != [] && Ordered(d) && Last(d).id < ID_LIMIT
    && (forall i :: 0 <= i < |d| ==> Clean(d[i].bytes) && d[i].synced <= |d[i].bytes|)
    && (forall i :: 0 <= i < |d| - 1 ==> d[i].synced == |d[i].bytes|)
  }

  /** Every file that holds anything has a durable directory entry. */
  predicate Entered(d: Dir) {
    forall i :: 0 <= i < |d| ==> d[i].entry || d[i].bytes == []
  }

  /** Every segment but the last that holds anything has a durable directory entry. */
  predicate Anchored(d: Dir) {
    d != [] ==> Entered(Front(d))
  }

  // ------------------------------------------------------------------ opening

  /** open creates segment 1 in an empty directory and makes its entry durable. */
  function OpenDir(d: Dir): Dir {
    if d == [] then SyncEntries([NewSegment(1)]) else d
  }

  function TxidAfter(last: U64): U64 {
    if last == U64_MAX then 1 else last + 1
  }

  /** The handle that a successful open returns. */
  function OpenWriter(d: Dir, durable: seq<Rec>): Writer {
    var e := OpenDir(d);
    var s := ScanDir(Listed(e)).state;
    var id := if Listed(e) == [] then 0 else Last(Listed(e)).id;
    Writer(e, Idle, id, if s.logicalEnd.Some? && s.logicalEnd.value.0 == id then s.logicalEnd.value.1 else 0,
           TxidAfter(s.lastTxid), Strip(s.records), durable)
  }

  // ------------------------------------------------------------------ steps

  predicate OnActive(w: Writer) {
    w.dir != [] && Last(w.dir).id == w.activeId
  }

  predicate Enabled(w: Writer, a: Action) {
    match a
    case BeginAppend(_, _, _) => w.phase == Idle && OnActive(w)
    case WriteBytes(n) => w.phase.Appending? && OnActive(w) && w.phase.pending.written + n <= |Frame(w.phase.pending.rec)|
    case FinishAppend => w.phase.Appending? && w.phase.pending.written == |Frame(w.phase.pending.rec)|
    case FailAppend => w.phase.Appending?
    case FsyncFile(_) => w.phase == Idle && OnActive(w)
    case FsyncEntries(_) => w.phase == FsyncedFile && OnActive(w)
    case RotateSync(_) => w.phase == Idle && OnActive(w)
    case RotateGiveUp => w.phase == RotateSynced
    case RotateRefuse => w.phase == RotateSynced && NextId(w.dir).Ok? && NextId(w.dir).value <= w.activeId
    case RotateCreate(_) => w.phase == RotateSynced && NextId(w.dir).Ok? && NextId(w.dir).value > w.activeId
    case RotateEnter(_) => w.phase == RotateCreated
    case RotateSwitch(_) => w.phase == RotateEntered && w.dir != []
    case Restart(e) => CrashTo(w.dir, e) && (e != [] ==> Settled(e))
  }

  /** Syncing a file makes the acknowledged records durable, provided no file with records can vanish. */
  function Promise(w: Writer): seq<Rec> {
    if Entered(w.dir) then w.acked else w.durable
  }

  /** n more bytes of the pending frame reach the end of the file. */
  function WriteMore(w: Writer, p: Pending, n: nat): Writer
    requires w.dir != [] && p.written + n <= |Frame(p.rec)|
  {
    w.(dir := Extend(w.dir, Frame(p.rec)[p.written..p.written + n]), phase := Appending(Pending(p.rec, p.written + n)))
  }

  /** The creation of the next segment, which may fail before or after the file is there. */
  function CreateNext(w: Writer, outcome: CreateOutcome): Writer
    requires NextId(w.dir).Ok?
  {
    var grown := w.dir + [NewSegment(NextId(w.dir).value)];
    if outcome.Created? then w.(dir := grown, phase := RotateCreated)
    else if outcome.FailedAfterCreate? then w.(dir := grown, phase := Poisoned(None))
    else w.(phase := Poisoned(None))
  }

  /** The bookkeeping after a whole frame has been written; both counters are checked. */
  function Acknowledge(w: Writer, p: Pending): Writer {
    var size := w.activeSize + |Frame(p.rec)|;
    if size > U64_MAX then w.(phase := Poisoned(Some(p)))
    else if p.rec.txid == U64_MAX then w.(activeSize := size, phase := Poisoned(Some(p)))
    else w.(activeSize := size, nextTxid := p.rec.txid + 1, acked := w.acked + [p.rec], phase := Idle)
  }

  function Apply(w: Writer, a: Action): Writer
    requires Enabled(w, a)
  {
    hide NextId, CrashTo, Settled, Frame, Entered, Ordered, Clean;
    match a
    case BeginAppend(kind, key, payload) => w.(phase := Appending(Pending(Rec(kind, w.nextTxid, key, payload), 0)))
    case WriteBytes(n) => WriteMore(w, w.phase.pending, n)
    case FinishAppend => Acknowledge(w, w.phase.pending)
    case FailAppend => w.(phase := Poisoned(Some(w.phase.pending)))
    case FsyncFile(ok) =>
      if ok then w.(dir := SyncLast(w.dir), phase := FsyncedFile) else w.(phase := Poisoned(None))
    case FsyncEntries(ok) =>
      if ok then w.(dir := SyncEntries(w.dir), durable := w.acked, phase := Idle) else w.(phase := Poisoned(None))
    case RotateSync(ok) =>
      if ok then w.(dir := SyncLast(w.dir), durable := Promise(w), phase := RotateSynced)
      else w.(phase := Poisoned(None))
    case RotateGiveUp => w.(phase := Idle)
    case RotateRefuse => w.(phase := Poisoned(None))
    case RotateCreate(outcome) => CreateNext(w, outcome)
    case RotateEnter(ok) =>
      if ok then w.(dir := SyncEntries(w.dir), durable := w.acked, phase := RotateEntered)
      else w.(phase := Poisoned(None))
    case RotateSwitch(ok) =>
      if ok then w.(activeId := Last(w.dir).id, activeSize := 0, phase := Idle) else w.(phase := Poisoned(None))
    case Restart(e) => OpenWriter(e, w.durable)
  }

  /** w reaches x by the given steps. */
  predicate Runs(w: Writer, actions: seq<Action>, x: Writer)
    decreases |actions|
  {
    if actions == [] then x == w
    else Enabled(w, actions[0]) && Runs(Apply(w, actions[0]), actions[1..], x)
  }
}
