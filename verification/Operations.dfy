/** The operations of the log as runs of the writer's steps, and where those runs lead. */
module Operations {
  import opened Bytes
  import opened Format
  import opened Segment
  import opened Scan
  import opened Writer

  /** How a write of a whole frame ends: in full, or with an error after some of its bytes. */
  datatype WriteOutcome = Written | Stopped(after: nat)

  function AppendSteps(kind: RecordType, key: Key, payload: Payload, len: nat, io: WriteOutcome): seq<Action> {
    match io
    case Written => [BeginAppend(kind, key, payload), WriteBytes(len), FinishAppend]
    case Stopped(n) => [BeginAppend(kind, key, payload), WriteBytes(if n <= len then n else len), FailAppend]
  }

  /** The state after an append that goes through. */
  function Appended(w: Writer, rec: Rec): Writer
    requires w.dir != []
  {
    w.(dir := Extend(w.dir, Frame(rec)), activeSize := w.activeSize + |Frame(rec)|,
       nextTxid := if rec.txid < U64_MAX then rec.txid + 1 else rec.txid, acked := w.acked + [rec])
  }

  /** An append goes through when the write does and both counters have room. */
  predicate AppendSucceeds(w: Writer, rec: Rec, io: WriteOutcome) {
    io.Written? && w.activeSize + |Frame(rec)| <= U64_MAX && rec.txid < U64_MAX
  }

  function AppendResult(w: Writer, rec: Rec, io: WriteOutcome): Writer
    requires w.dir != []
  {
    var f := Frame(rec);
    if AppendSucceeds(w, rec, io) then Appended(w, rec)
    else if io.Written? then
      w.(dir := Extend(w.dir, f), phase := Poisoned(Some(Pending(rec, |f|))),
         activeSize := if w.activeSize + |f| <= U64_MAX then w.activeSize + |f| else w.activeSize)
    else
      var n := if io.after <= |f| then io.after else |f|;
      w.(dir := Extend(w.dir, f[..n]), phase := Poisoned(Some(Pending(rec, n))))
  }

  lemma RunsNone(w: Writer)
    ensures Runs(w, [], w)
  {
  }

  lemma {:induction false} RunsMore(w: Writer, acts: seq<Action>, x: Writer, a: Action)
    requires Runs(w, acts, x) && Enabled(x, a)
    ensures Runs(w, acts + [a], Apply(x, a))
    decreases |acts|
  {
    hide Enabled, Apply;
    if acts == [] {
      assert acts + [a] == [a] && [a][1..] == [];
      assert Runs(Apply(w, a), [], Apply(w, a));
    } else {
      RunsMore(Apply(w, acts[0]), acts[1..], x, a);
      assert (acts + [a])[1..] == acts[1..] + [a];
    }
  }

  lemma WriteIsRun(w: Writer, kind: RecordType, key: Key, payload: Payload, n: nat)
    requires w.phase == Idle && OnActive(w)
    requires n <= |Frame(Rec(kind, w.nextTxid, key, payload))|
    ensures var rec := Rec(kind, w.nextTxid, key, payload);
      Runs(w, [BeginAppend(kind, key, payload), WriteBytes(n)],
           w.(dir := Extend(w.dir, Frame(rec)[..n]), phase := Appending(Pending(rec, n))))
  {
    hide Frame, Runs, Extend, NextId, CrashTo, Settled, OpenWriter;
    var rec := Rec(kind, w.nextTxid, key, payload);
    var a1, a2 := BeginAppend(kind, key, payload), WriteBytes(n);
    RunsNone(w);
    RunsMore(w, [], w, a1);
    assert [] + [a1] == [a1] && [a1] + [a2] == [a1, a2];
    assert Frame(rec)[0..0 + n] == Frame(rec)[..n];
    RunsMore(w, [a1], Apply(w, a1), a2);
  }

  lemma AppendIsRun(w: Writer, kind: RecordType, key: Key, payload: Payload, io: WriteOutcome)
    requires w.phase == Idle && OnActive(w)
    ensures var rec := Rec(kind, w.nextTxid, key, payload);
      Runs(w, AppendSteps(kind, key, payload, |Frame(rec)|, io), AppendResult(w, rec, io))
  {
    hide Frame, Runs, Extend, NextId, CrashTo, Settled, OpenWriter;
    var rec := Rec(kind, w.nextTxid, key, payload);
    var f := Frame(rec);
    var n := if io.Written? || |f| <= io.after then |f| else io.after;
    var before, a3 := [BeginAppend(kind, key, payload), WriteBytes(n)], if io.Written? then FinishAppend else FailAppend;
    WriteIsRun(w, kind, key, payload, n);
    var w2 := w.(dir := Extend(w.dir, f[..n]), phase := Appending(Pending(rec, n)));
    assert before + [a3] == AppendSteps(kind, key, payload, |f|, io);
    assert f[..|f|] == f;
    RunsMore(w, before, w2, a3);
  }

  function FsyncSteps(fileOk: bool, dirOk: bool): seq<Action> {
    if fileOk then [FsyncFile(true), FsyncEntries(dirOk)] else [FsyncFile(false)]
  }

  function Fsynced(w: Writer, fileOk: bool, dirOk: bool): Writer
    requires w.dir != []
  {
    if !fileOk then w.(phase := Poisoned(None))
    else if !dirOk then w.(dir := SyncLast(w.dir), phase := Poisoned(None))
    else w.(dir := SyncEntries(SyncLast(w.dir)), durable := w.acked)
  }

  lemma SyncKeepsActive(d: Dir)
    requires d != []
    ensures Last(SyncLast(d)).id == Last(d).id && SyncLast(d) != []
    ensures SyncEntries(SyncLast(d)) != [] && Last(SyncEntries(SyncLast(d))).id == Last(d).id
  {
  }

  lemma FsyncIsRun(w: Writer, fileOk: bool, dirOk: bool)
    requires w.phase == Idle && OnActive(w)
    ensures Runs(w, FsyncSteps(fileOk, dirOk), Fsynced(w, fileOk, dirOk))
  {
    hide Runs, SyncEntries, SyncLast, Frame, CrashTo, Settled, OpenWriter, NextId, Entered;
    var a1, a2 := FsyncFile(fileOk), FsyncEntries(dirOk);
    RunsNone(w);
    RunsMore(w, [], w, a1);
    assert [] + [a1] == [a1] && [a1] + [a2] == [a1, a2];
    if fileOk {
      SyncKeepsActive(w.dir);
      RunsMore(w, [a1], Apply(w, a1), a2);
    }
  }

  /** The outcomes of the system calls of a rotate. */
  datatype RotateOutcome = RotateOutcome(syncOk: bool, listOk: bool, create: CreateOutcome, dirOk: bool, openOk: bool)

  function RotateSteps(w: Writer, io: RotateOutcome): seq<Action> {
    if !io.syncOk then [RotateSync(false)]
    else if !io.listOk || NextId(w.dir).Err? then [RotateSync(true), RotateGiveUp]
    else if NextId(w.dir).value <= w.activeId then [RotateSync(true), RotateRefuse]
    else if !io.create.Created? then [RotateSync(true), RotateCreate(io.create)]
    else if !io.dirOk then [RotateSync(true), RotateCreate(Created), RotateEnter(false)]
    else [RotateSync(true), RotateCreate(Created), RotateEnter(true), RotateSwitch(io.openOk)]
  }

  lemma {:induction false} RunsConcat(w: Writer, a: seq<Action>, x: Writer, b: seq<Action>, y: Writer)
    requires Runs(w, a, x) && Runs(x, b, y)
    ensures Runs(w, a + b, y)
    decreases |a|
  {
    hide Enabled, Apply;
    if a == [] {
      assert a + b == b;
    } else {
      RunsConcat(Apply(w, a[0]), a[1..], x, b, y);
      assert (a + b)[1..] == a[1..] + b;
    }
  }

  lemma ListedOfSync(d: Dir)
    requires d != []
    ensures Ids(Listed(SyncLast(d))) == Ids(Listed(d))
  {
    hide ParseSegmentFilename, SegmentName;
    assert Front(SyncLast(d)) == Front(d);
  }

  lemma IdsAfterSync(d: Dir)
    requires d != []
    ensures NextId(SyncLast(d)) == NextId(d)
  {
    ListedOfSync(d);
  }

  /** Where those steps lead. */
  function Rotated(w: Writer, io: RotateOutcome): Writer
    requires w.dir != []
  {
    if !io.syncOk then w.(phase := Poisoned(None))
    else
      var w1 := w.(dir := SyncLast(w.dir), durable := Promise(w));
      if !io.listOk || NextId(w.dir).Err? then w1
      else if NextId(w.dir).value <= w.activeId then w1.(phase := Poisoned(None))
      else
        var next := NextId(w.dir).value;
        var grown := SyncLast(w.dir) + [NewSegment(next)];
        if io.create.FailedBeforeCreate? then w1.(phase := Poisoned(None))
        else if !io.create.Created? || !io.dirOk then w1.(dir := grown, phase := Poisoned(None))
        else
          var w3 := w1.(dir := SyncEntries(grown), durable := w.acked);
          if !io.openOk then w3.(phase := Poisoned(None)) else w3.(activeId := next, activeSize := 0)
  }

  lemma EnteredLast(d: Dir)
    requires d != []
    ensures SyncEntries(d) != [] && Last(SyncEntries(d)) == Last(d).(entry := true)
  {
  }

  lemma RotateGrows(w: Writer, io: RotateOutcome, w1: Writer)
    requires w.phase == Idle && OnActive(w) && io.syncOk && io.listOk
    requires NextId(w.dir).Ok? && NextId(w.dir).value > w.activeId
    requires Runs(w, [RotateSync(true)], w1) && w1 == Apply(w, RotateSync(true)) && NextId(w1.dir) == NextId(w.dir)
    ensures Runs(w, RotateSteps(w, io), Rotated(w, io))
  {
    hide Runs, SyncEntries, SyncLast, NextId, Frame, CrashTo, Settled, OpenWriter, WithLast;
    var a1, a2, a3, a4 := RotateSync(true), RotateCreate(io.create), RotateEnter(io.dirOk), RotateSwitch(io.openOk);
    RunsMore(w, [a1], w1, a2);
    assert [a1] + [a2] == [a1, a2];
    if io.create.Created? {
      var w2 := Apply(w1, a2);
      RunsMore(w, [a1, a2], w2, a3);
      assert [a1, a2] + [a3] == [a1, a2, a3];
      if io.dirOk {
        var w3 := Apply(w2, a3);
        EnteredLast(w2.dir);
        RunsMore(w, [a1, a2, a3], w3, a4);
        assert [a1, a2, a3] + [a4] == RotateSteps(w, io);
      }
    }
  }

  lemma RotateIsRun(w: Writer, io: RotateOutcome)
    requires w.phase == Idle && OnActive(w)
    ensures Runs(w, RotateSteps(w, io), Rotated(w, io))
  {
    hide Runs, SyncEntries, SyncLast, NextId, Frame, CrashTo, Settled, OpenWriter;
    RunsNone(w);
    var a1 := RotateSync(io.syncOk);
    RunsMore(w, [], w, a1);
    assert [] + [a1] == [a1];
    if io.syncOk {
      var w1 := Apply(w, a1);
      SyncKeepsActive(w.dir);
      IdsAfterSync(w.dir);
      if !io.listOk || NextId(w.dir).Err? {
        RunsMore(w, [a1], w1, RotateGiveUp);
        assert [a1] + [RotateGiveUp] == RotateSteps(w, io);
      } else if NextId(w.dir).value <= w.activeId {
        RunsMore(w, [a1], w1, RotateRefuse);
        assert [a1] + [RotateRefuse] == RotateSteps(w, io);
      } else {
        RotateGrows(w, io, w1);
      }
    }
  }

  lemma ExtendKeepsActive(d: Dir)
    requires d != []
    ensures forall b: seq<Byte> :: Extend(d, b) != [] && Last(Extend(d, b)).id == Last(d).id
  {
  }
}
