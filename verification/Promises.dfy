/** What a successful sync promises, stated over whole runs and without the record the model keeps of it. */
module Promises {
  import opened Bytes
  import opened Format
  import opened Scan
  import opened ScanFacts
  import opened Writer
  import opened WriterInv
  import opened CrashSafety

  /**
   The last step of a successful fsync, the sync of the directory in a rotate, or the sync with
   which a rotate begins, if no file that holds records may still vanish at that point.
   */
  predicate Forces(w: Writer, a: Action) {
    a == FsyncEntries(true) || a == RotateEnter(true) || (a == RotateSync(true) && Entered(w.dir))
  }

  lemma DurableIsAcked(w: Writer)
    requires Inv(w) && PendingOf(w.phase).None?
    ensures w.durable <= w.acked
  {
    hide Holds, Guaranteed, HandleFits, DirRecs, Entered;
    HoldsFacts(w.dir, w.acked, None);
    GuaranteedIsFound(w.dir, w.acked, None);
    HeldRecovers(w.dir, w.acked, None);
  }

  lemma ForcedIsDurable(w: Writer, a: Action)
    requires Inv(w) && Enabled(w, a) && Forces(w, a)
    ensures Apply(w, a).durable == w.acked
  {
    hide Holds, Guaranteed, SyncEntries, SyncLast, Frame, CrashTo, Settled, NextId;
  }

  lemma AppendKeepsPromises(w: Writer, n: nat)
    requires Enabled(w, WriteBytes(n))
    ensures WriteMore(w, w.phase.pending, n).durable == w.durable
  {
    hide Frame;
  }

  lemma CreateKeepsPromises(w: Writer, outcome: CreateOutcome)
    requires NextId(w.dir).Ok?
    ensures CreateNext(w, outcome).durable == w.durable
  {
    hide NextId;
  }

  lemma AcknowledgeKeepsPromises(w: Writer, p: Pending)
    ensures Acknowledge(w, p).durable == w.durable
  {
    hide Frame;
  }

  /** No step takes a promise back, whatever fails and wherever the power is lost. */
  lemma StepKeepsPromises(w: Writer, a: Action)
    requires Inv(w) && Enabled(w, a)
    ensures w.durable <= Apply(w, a).durable
  {
    hide Inv, SyncEntries, SyncLast, Frame, CrashTo, Settled, NextId, Listed, ScanDir, OpenDir, WithLast, DirRecs, Strip,
      WriteMore, CreateNext, Acknowledge;
    if PendingOf(w.phase).None? {
      DurableIsAcked(w);
    }
    match a
    case WriteBytes(n) => AppendKeepsPromises(w, n);
    case RotateCreate(outcome) => CreateKeepsPromises(w, outcome);
    case FinishAppend => AcknowledgeKeepsPromises(w, w.phase.pending);
    case _ =>
  }

  lemma {:induction false} RunKeepsPromises(w: Writer, actions: seq<Action>, x: Writer)
    requires Inv(w) && Runs(w, actions, x) && RunWithinLimit(w, actions)
    ensures Inv(x) && w.durable <= x.durable
    decreases |actions|
  {
    hide Inv, Enabled, Apply;
    if actions != [] {
      StepKeeps(w, actions[0]);
      StepKeepsPromises(w, actions[0]);
      RunKeepsPromises(Apply(w, actions[0]), actions[1..], x);
    }
  }

  lemma NoHoleFacts(x: Writer)
    requires NoHole(x)
    ensures HoleFree(x.dir)
  {
  }

  /**
   Durability. Let a handle on a directory that is empty or has no torn tail run as it may until,
   at y, a step forces the log to disk; let it run on as it may, with restarts in place and after
   power losses, and cut the power. The log opens and finds every record acknowledged at y.
   */
  lemma ForcedRecordsSurvive(d: Dir, before: seq<Action>, y: Writer, a: Action, after: seq<Action>, x: Writer, e: Dir)
    requires (d == [] || Settled(d)) && Runs(OpenWriter(d, []), before, y) && RunWithinLimit(OpenWriter(d, []), before)
    requires Forces(y, a) && Enabled(y, a)
    requires Runs(Apply(y, a), after, x) && RunWithinLimit(Apply(y, a), after) && CrashTo(x.dir, e)
    ensures ScanDir(Listed(e)).error.None? && y.acked <= Found(e)
    ensures Anchored(d) && RunAnchored(OpenWriter(d, []), before) && RunAnchored(Apply(y, a), after) ==>
      Found(e) <= Attempted(x)
  {
    hide Inv, Runs, RunWithinLimit, RunAnchored, CrashTo, Enabled, Apply, ScanDir, OpenWriter, Attempted, Settled, NoHole,
      HoleFree, Found, Anchored;
    StartKeeps(d);
    RunKeeps(OpenWriter(d, []), before, y);
    StepKeeps(y, a);
    ForcedIsDurable(y, a);
    RunKeepsPromises(Apply(y, a), after, x);
    CrashOpens(x, e);
    if Anchored(d) && RunAnchored(OpenWriter(d, []), before) && RunAnchored(Apply(y, a), after) {
      StartLeavesNoHole(d);
      RunLeavesNoHole(OpenWriter(d, []), before, y);
      StepLeavesNoHole(y, a);
      RunLeavesNoHole(Apply(y, a), after, x);
      NoHoleFacts(x);
    }
  }
}
