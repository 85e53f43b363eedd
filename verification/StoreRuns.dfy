/** The key-value store over whole runs that end in a power loss. */
module StoreRuns {
  import opened Bytes
  import opened Format
  import opened Recovery
  import opened Segment
  import opened Scan
  import opened ScanFacts
  import opened Keydir
  import opened Writer
  import opened WriterInv
  import opened CrashSafety
  import opened Promises
  import opened Entries
  import opened Operations
  import opened KvRuns

  /** A call on the store, with the outcomes of its system calls. */
  datatype StoreOp =
    | PutCall(key: seq<Byte>, value: seq<Byte>, io: WriteOutcome)
    | DeleteCall(key: seq<Byte>, io: WriteOutcome)
    | FsyncCall(fileOk: bool, dirOk: bool)
    | RotateCall(outcome: RotateOutcome)

  function AppendCall(w: Writer, kind: RecordType, key: seq<Byte>, payload: seq<Byte>, io: WriteOutcome): Writer
    requires w.dir != []
  {
    if w.phase == Idle && |key| <= MAX_KEY_LEN && |payload| <= MAX_PAYLOAD_LEN
    then AppendResult(w, Rec(kind, w.nextTxid, key, payload), io) else w
  }

  /** A poisoned handle refuses every call, and an oversize append is refused before it writes. */
  function StoreApply(w: Writer, op: StoreOp): Writer
    requires w.dir != []
  {
    match op
    case PutCall(key, value, io) => AppendCall(w, Put, key, value, io)
    case DeleteCall(key, io) => AppendCall(w, Delete, key, [], io)
    case FsyncCall(fileOk, dirOk) => if w.phase == Idle then Fsynced(w, fileOk, dirOk) else w
    case RotateCall(outcome) => if w.phase == Idle then Rotated(w, outcome) else w
  }

  /** The write that the call begins, if it is not refused. */
  function BegunBy(w: Writer, op: StoreOp): seq<KvOp> {
    match op
    case PutCall(key, value, _) =>
      if w.phase == Idle && |key| <= MAX_KEY_LEN && |value| <= MAX_PAYLOAD_LEN then [PutOp(key, value)] else []
    case DeleteCall(key, _) => if w.phase == Idle && |key| <= MAX_KEY_LEN then [DeleteOp(key)] else []
    case _ => []
  }

  /** Between calls a handle is idle or poisoned, and its log is in order. */
  predicate AtRest(w: Writer) {
    Inv(w) && NoHole(w) && (w.phase == Idle || w.phase.Poisoned?)
  }

  predicate RotatesWithinLimit(w: Writer, op: StoreOp) {
    op.RotateCall? && w.phase == Idle ==> w.dir != [] && Last(w.dir).id + 1 < ID_LIMIT
  }

  predicate StoreRuns(w: Writer, ops: seq<StoreOp>, x: Writer)
    decreases |ops|
  {
    if ops == [] then x == w
    else w.dir != [] && RotatesWithinLimit(w, ops[0]) && StoreRuns(StoreApply(w, ops[0]), ops[1..], x)
  }

  function Begun(w: Writer, ops: seq<StoreOp>): seq<KvOp>
    decreases |ops|
  {
    if ops == [] || w.dir == [] then [] else BegunBy(w, ops[0]) + Begun(StoreApply(w, ops[0]), ops[1..])
  }

  // ------------------------------------------------------------------ records and writes

  predicate Carries(r: Rec, op: KvOp) {
    (r.kind.Put? && op == PutOp(r.key, r.payload)) || (r.kind.Delete? && op == DeleteOp(r.key))
  }

  predicate Matches(recs: seq<Rec>, ops: seq<KvOp>) {
    |recs| == |ops| && forall i :: 0 <= i < |recs| ==> Carries(recs[i], ops[i])
  }

  lemma {:induction false} PlainRunSnoc(m: Values, ops: seq<KvOp>, op: KvOp)
    ensures PlainRun(m, ops + [op]) == PlainApply(PlainRun(m, ops), op)
    decreases |ops|
  {
    hide PlainApply;
    if ops == [] {
      assert [op][1..] == [] && ops + [op] == [op];
    } else {
      PlainRunSnoc(PlainApply(m, ops[0]), ops[1..], op);
      assert (ops + [op])[1..] == ops[1..] + [op];
    }
  }

  lemma PlainRunNothing(m: Values)
    ensures PlainRun(m, []) == m
  {
  }

  /** The projection follows the writes. */
  lemma {:induction false} ProjectMatches(base: seq<Rec>, recs: seq<Rec>, ops: seq<KvOp>)
    requires Matches(recs, ops)
    ensures Project(base + recs) == PlainRun(Project(base), ops)
    decreases |recs|
  {
    hide Project, PlainRun;
    if recs == [] {
      assert base + recs == base;
      PlainRunNothing(Project(base));
    } else {
      var n := |recs| - 1;
      ProjectMatches(base, recs[..n], ops[..n]);
      assert base + recs == (base + recs[..n]) + [recs[n]] && ops == ops[..n] + [ops[n]];
      ProjectSnoc(base + recs[..n], recs[n]);
      PlainRunSnoc(Project(base), ops[..n], ops[n]);
      assert Carries(recs[n], ops[n]);
    }
  }

  // ------------------------------------------------------------------ single calls

  /** A run of steps without a restart, from rest to rest. */
  lemma StepsAtRest(w: Writer, acts: seq<Action>, x: Writer)
    requires AtRest(w) && Runs(w, acts, x) && RunWithinLimit(w, acts) && forall a <- acts :: !a.Restart?
    requires x.phase == Idle || x.phase.Poisoned?
    ensures AtRest(x) && w.durable <= x.durable
  {
    hide Inv, NoHole, Runs, RunWithinLimit;
    NoRestartAnchored(w, acts);
    RunKeepsPromises(w, acts, x);
    RunLeavesNoHole(w, acts, x);
  }

  lemma AppendAtRest(w: Writer, kind: RecordType, key: Key, payload: Payload, io: WriteOutcome)
    requires AtRest(w) && w.phase == Idle
    ensures w.dir != []
    ensures var rec := Rec(kind, w.nextTxid, key, payload); var x := AppendResult(w, rec, io);
      AtRest(x) && w.durable <= x.durable && Attempted(x) == Attempted(w) + [rec]
  {
    hide Inv, NoHole, Runs, RunWithinLimit, Frame, Extend, Ordered, Clean, DirRecs;
    IdleFacts(w);
    var rec := Rec(kind, w.nextTxid, key, payload);
    var acts := AppendSteps(kind, key, payload, |Frame(rec)|, io);
    AppendIsRun(w, kind, key, payload, io);
    AppendHasNoRotate(kind, key, payload, |Frame(rec)|, io);
    NoRotateWithinLimit(w, acts);
    StepsAtRest(w, acts, AppendResult(w, rec, io));
  }

  lemma FsyncAtRest(w: Writer, fileOk: bool, dirOk: bool)
    requires AtRest(w) && w.phase == Idle
    ensures w.dir != []
    ensures var x := Fsynced(w, fileOk, dirOk);
      AtRest(x) && w.durable <= x.durable && Attempted(x) == Attempted(w)
  {
    hide Inv, NoHole, Runs, RunWithinLimit, SyncLast, SyncEntries, Ordered, Clean, DirRecs;
    IdleFacts(w);
    var acts := FsyncSteps(fileOk, dirOk);
    FsyncIsRun(w, fileOk, dirOk);
    NoRotateWithinLimit(w, acts);
    StepsAtRest(w, acts, Fsynced(w, fileOk, dirOk));
  }

  lemma RotateAtRest(w: Writer, io: RotateOutcome)
    requires AtRest(w) && w.phase == Idle && w.dir != [] && Last(w.dir).id + 1 < ID_LIMIT
    ensures var x := Rotated(w, io);
      AtRest(x) && w.durable <= x.durable && Attempted(x) == Attempted(w)
  {
    hide Inv, NoHole, Runs, RunWithinLimit, SyncLast, SyncEntries, Ordered, NextId, Clean, DirRecs;
    IdleFacts(w);
    var acts := RotateSteps(w, io);
    RotateIsRun(w, io);
    RotateStaysWithin(w, io);
    StepsAtRest(w, acts, Rotated(w, io));
  }

  lemma RestHasDirectory(w: Writer)
    requires AtRest(w)
    ensures w.dir != []
  {
    hide Guaranteed, HoleFree;
  }

  lemma StoreStep(w: Writer, op: StoreOp) returns (recs: seq<Rec>)
    requires AtRest(w) && RotatesWithinLimit(w, op)
    ensures w.dir != []
    ensures var x := StoreApply(w, op);
      AtRest(x) && w.durable <= x.durable && Attempted(x) == Attempted(w) + recs && Matches(recs, BegunBy(w, op))
  {
    hide AtRest, AppendResult, Rotated, Fsynced;
    RestHasDirectory(w);
    recs := [];
    if w.phase == Idle {
      match op
      case PutCall(key, value, io) =>
        if |key| <= MAX_KEY_LEN && |value| <= MAX_PAYLOAD_LEN {
          AppendAtRest(w, Put, key, value, io);
          recs := [Rec(Put, w.nextTxid, key, value)];
        }
      case DeleteCall(key, io) =>
        if |key| <= MAX_KEY_LEN {
          AppendAtRest(w, Delete, key, [], io);
          recs := [Rec(Delete, w.nextTxid, key, [])];
        }
      case FsyncCall(fileOk, dirOk) => FsyncAtRest(w, fileOk, dirOk);
      case RotateCall(outcome) => RotateAtRest(w, outcome);
    }
  }

  // ------------------------------------------------------------------ whole runs

  lemma MatchesConcat(a: seq<Rec>, p: seq<KvOp>, b: seq<Rec>, q: seq<KvOp>)
    requires Matches(a, p) && Matches(b, q)
    ensures Matches(a + b, p + q)
  {
    hide Carries;
  }

  lemma {:induction false} StoreRunAtRest(w: Writer, ops: seq<StoreOp>, x: Writer) returns (recs: seq<Rec>)
    requires AtRest(w) && StoreRuns(w, ops, x)
    ensures AtRest(x) && w.durable <= x.durable && Attempted(x) == Attempted(w) + recs && Matches(recs, Begun(w, ops))
    decreases |ops|
  {
    hide AtRest, StoreApply, BegunBy, Carries, RotatesWithinLimit, Attempted;
    if ops == [] {
      recs := [];
    } else {
      var first := StoreStep(w, ops[0]);
      var y := StoreApply(w, ops[0]);
      var rest := StoreRunAtRest(y, ops[1..], x);
      recs := first + rest;
      MatchesConcat(first, BegunBy(w, ops[0]), rest, Begun(y, ops[1..]));
      assert (Attempted(w) + first) + rest == Attempted(w) + (first + rest);
    }
  }

  lemma MatchesPrefix(recs: seq<Rec>, ops: seq<KvOp>, n: nat)
    requires Matches(recs, ops) && n <= |recs|
    ensures Matches(recs[..n], ops[..n])
  {
    hide Carries;
  }

  lemma OpensAtRest(d: Dir)
    requires (d == [] || Settled(d)) && Anchored(d)
    ensures AtRest(OpenWriter(d, [])) && Attempted(OpenWriter(d, [])) == DirRecs(d)
  {
    hide Settled, OpenWriter, Inv, NoHole, DirRecs, Anchored, Newest;
    StartKeeps(d);
    StartLeavesNoHole(d);
    if d == [] {
      FreshKeeps([]);
      NothingScanned(d);
    } else {
      OpenSettled(d, []);
    }
  }

  lemma {:induction false} CrashKeepsOrder(d: Dir, e: Dir)
    requires Ordered(d) && CrashTo(d, e)
    ensures Ordered(e) && (forall i :: 0 <= i < |e| ==> exists j :: 0 <= j < |d| && e[i].id == d[j].id)
    decreases |d|
  {
    if d != [] {
      var front := Front(d);
      assert Last(d) == d[|d| - 1] && forall i :: 0 <= i < |d| - 1 ==> front[i] == d[i];
      if e != [] && Survives(Last(d), Last(e)) && CrashTo(front, Front(e)) {
        CrashKeepsOrder(front, Front(e));
        assert Last(e) == e[|e| - 1] && forall i :: 0 <= i < |e| - 1 ==> Front(e)[i] == e[i];
      } else {
        CrashKeepsOrder(front, e);
      }
    }
  }

  lemma CrashLeavesOrder(x: Writer, e: Dir)
    requires AtRest(x) && CrashTo(x.dir, e)
    ensures Ordered(OpenDir(e))
  {
    hide Guaranteed, HoleFree, CrashTo;
    CrashKeepsOrder(x.dir, e);
  }

  lemma OpenDirKeepsRecs(e: Dir)
    ensures DirRecs(OpenDir(e)) == DirRecs(e)
  {
    hide DirRecs;
    if e == [] {
      FreshDirectory();
      NothingScanned(e);
    }
  }

  lemma MatchesLength(recs: seq<Rec>, ops: seq<KvOp>)
    requires Matches(recs, ops)
    ensures |recs| == |ops|
  {
  }

  lemma FsyncedDurable(y: Writer)
    requires y.dir != []
    ensures var z := Fsynced(y, true, true); z.durable == y.acked && z.phase == y.phase && z.acked == y.acked
  {
  }

  lemma IdleAttempts(w: Writer)
    requires w.phase == Idle
    ensures Attempted(w) == w.acked
  {
  }

  lemma RestOpens(x: Writer, e: Dir)
    requires AtRest(x) && CrashTo(x.dir, e)
    ensures ScanDir(Listed(e)).error.None? && Found(e) == DirRecs(e) && x.durable <= Found(e) <= Attempted(x)
  {
    hide Inv, CrashTo, ScanDir, Listed, Found, DirRecs, HoleFree, Attempted;
    CrashOpens(x, e);
  }

  /** What the calls up to a completed fsync and after it leave to find, as a number of writes begun. */
  lemma WritesFound(w: Writer, before: seq<StoreOp>, y: Writer, after: seq<StoreOp>, x: Writer, e: Dir) returns (n: nat)
    requires AtRest(w) && w.phase == Idle && StoreRuns(w, before, y) && y.phase == Idle && y.dir != []
    requires StoreRuns(Fsynced(y, true, true), after, x) && CrashTo(x.dir, e)
    ensures ScanDir(Listed(e)).error.None? && Found(e) == DirRecs(e) && Ordered(OpenDir(e))
    ensures var ops := Begun(w, before) + Begun(Fsynced(y, true, true), after);
      |Begun(w, before)| <= n <= |ops| && Project(Found(e)) == PlainRun(Project(w.acked), ops[..n])
  {
    hide AtRest, StoreRuns, Begun, Fsynced, CrashTo, ScanDir, Listed, Project, PlainRun, Matches, Found, Attempted, DirRecs;
    var z := Fsynced(y, true, true);
    var b1 := StoreRunAtRest(w, before, y);
    FsyncAtRest(y, true, true);
    FsyncedDurable(y);
    var b2 := StoreRunAtRest(z, after, x);
    IdleAttempts(w);
    IdleAttempts(y);
    RestOpens(x, e);
    CrashLeavesOrder(x, e);
    var found, recs := Found(e), b1 + b2;
    var ops := Begun(w, before) + Begun(z, after);
    MatchesConcat(b1, Begun(w, before), b2, Begun(z, after));
    MatchesLength(b1, Begun(w, before));
    MatchesLength(recs, ops);
    assert w.acked + b1 <= found <= (w.acked + b1) + b2;
    n := |found| - |w.acked|;
    assert found == ((w.acked + b1) + b2)[..|found|] == w.acked + recs[..n];
    MatchesPrefix(recs, ops, n);
    ProjectMatches(w.acked, recs[..n], ops[..n]);
  }

  /** A reopened store over what a power loss left reads as the projection of what is found. */
  lemma ReopenedReads(e: Dir)
    requires Ordered(OpenDir(e))
    ensures var m := Project(DirRecs(e));
      forall key: seq<Byte> ::
        ReadValue(OpenDir(e), KeydirOf(DirRecords(OpenDir(e))), key) == Ok(if key in m then Some(m[key]) else None)
  {
    hide Project, DirRecs, ReadValue, KeydirOf, DirRecords, OpenDir, Ordered;
    OpenDirKeepsRecs(e);
    var m := Project(DirRecs(OpenDir(e)));
    forall key: seq<Byte>
      ensures ReadValue(OpenDir(e), KeydirOf(DirRecords(OpenDir(e))), key) == Ok(if key in m then Some(m[key]) else None)
    {
      DirectoryServes(OpenDir(e), key);
    }
  }

  /**
   With or without an fsync: after any calls and a power loss, the store opens again, and every key
   reads as the projection of a prefix of the records recovered at open followed by those of the
   writes begun.
   */
  lemma StoreReopens(d: Dir, ops: seq<StoreOp>, x: Writer, e: Dir) returns (recs: seq<Rec>, n: nat)
    requires (d == [] || Settled(d)) && Anchored(d) && StoreRuns(OpenWriter(d, []), ops, x) && CrashTo(x.dir, e)
    ensures ScanDir(Listed(e)).error.None? && Matches(recs, Begun(OpenWriter(d, []), ops))
    ensures n <= |DirRecs(d) + recs|
    ensures var m := Project((DirRecs(d) + recs)[..n]);
      forall key: seq<Byte> ::
        ReadValue(OpenDir(e), KeydirOf(DirRecords(OpenDir(e))), key) == Ok(if key in m then Some(m[key]) else None)
  {
    hide AtRest, StoreRuns, Begun, CrashTo, ScanDir, Listed, Project, Matches, Found, Attempted, DirRecs, OpenWriter, ReadValue,
      KeydirOf, DirRecords, Settled, Anchored, OpenDir, Ordered;
    OpensAtRest(d);
    recs := StoreRunAtRest(OpenWriter(d, []), ops, x);
    RestOpens(x, e);
    CrashLeavesOrder(x, e);
    n := |Found(e)|;
    assert DirRecs(e) == (DirRecs(d) + recs)[..n];
    ReopenedReads(e);
  }

  lemma StartsIdle(d: Dir)
    requires d == [] || Settled(d)
    ensures OpenWriter(d, []).phase == Idle
  {
    hide ScanDir, Listed, OpenDir;
  }

  /**
   The store and power loss. Open a store on an anchored directory without a torn tail; call put,
   delete, fsync and rotate, with any outcomes, with one fsync that completes; then cut the power.
   The store opens again, and every key reads as in a plain map after a prefix of the writes that
   were begun, which contains all those begun before that fsync.
   */
  lemma StoreSurvivesPowerLoss(d: Dir, before: seq<StoreOp>, y: Writer, after: seq<StoreOp>, x: Writer, e: Dir)
      returns (n: nat)
    requires (d == [] || Settled(d)) && Anchored(d) && StoreRuns(OpenWriter(d, []), before, y)
    requires y.phase == Idle && y.dir != [] && StoreRuns(Fsynced(y, true, true), after, x) && CrashTo(x.dir, e)
    ensures ScanDir(Listed(e)).error.None?
    ensures var ops := Begun(OpenWriter(d, []), before) + Begun(Fsynced(y, true, true), after);
      && |Begun(OpenWriter(d, []), before)| <= n <= |ops|
      && var m := PlainRun(Project(DirRecs(d)), ops[..n]);
      forall key: seq<Byte> ::
        ReadValue(OpenDir(e), KeydirOf(DirRecords(OpenDir(e))), key) == Ok(if key in m then Some(m[key]) else None)
  {
    hide AtRest, StoreRuns, Begun, Fsynced, CrashTo, ScanDir, Listed, Project, PlainRun, Found, Attempted, DirRecs, OpenWriter,
      ReadValue, KeydirOf, DirRecords, Settled, Anchored, OpenDir, Ordered;
    var w := OpenWriter(d, []);
    OpensAtRest(d);
    StartsIdle(d);
    IdleAttempts(w);
    n := WritesFound(w, before, y, after, x, e);
    ReopenedReads(e);
  }
}
