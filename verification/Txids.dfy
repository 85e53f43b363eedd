/** Transaction ids over runs of the writer. */
module Txids {
  import opened Bytes
  import opened Format
  import opened Recovery
  import opened Scan
  import opened ScanFacts
  import opened Writer
  import opened WriterInv
  import opened CrashSafety

  lemma {:induction false} NewestIsMax(t: U64, recs: seq<Rec>)
    ensures t <= Newest(t, recs) && forall r <- recs :: r.txid <= Newest(t, recs)
    ensures Newest(t, recs) == t || exists r <- recs :: r.txid == Newest(t, recs)
    decreases |recs|
  {
    if recs != [] {
      assert recs == recs[..|recs| - 1] + [recs[|recs| - 1]];
      NewestIsMax(t, recs[..|recs| - 1]);
    }
  }

  /** The txid a reopened store hands out next is new, except when the largest one is u64::MAX. */
  lemma FreshTxidIff(d: Dir)
    requires Opens(d)
    ensures (forall r <- DirRecs(d) :: r.txid < OpenWriter(d, []).nextTxid)
       <==> Newest(0, DirRecs(d)) < U64_MAX
  {
    hide OpenWriter, DirRecs, Opens, Newest;
    OpenResumes(d, []);
    NewestIsMax(0, DirRecs(d));
  }

  /** It is not: a log whose one record carries the largest txid hands out 1. */
  lemma TxidWraps()
    ensures var d := [Seg(1, Frame(Rec(Raw, U64_MAX, [], [])), 0, true)];
      Settled(d) && DirRecs(d) == [Rec(Raw, U64_MAX, [], [])] && OpenWriter(d, []).nextTxid == 1
  {
    hide Frame, Parse, OpenWriter;
    var r := Rec(Raw, U64_MAX, [], []);
    var d := [Seg(1, Frame(r), 0, true)];
    FramesParse([r]);
    FramesOfOne(r);
    DirRecsSplit(d);
    assert DirRecs(Front(d)) == [] && [] + [r] == [r];
    OpenSettled(d, []);
    assert [r][..0] == [];
  }

  /** The records carry the txids 1, 2, 3, ... in scan order. */
  predicate Numbered(recs: seq<Rec>) {
    forall i :: 0 <= i < |recs| ==> recs[i].txid == i + 1
  }

  predicate TxidsLeft(w: Writer, a: Action) {
    a.BeginAppend? ==> w.nextTxid < U64_MAX
  }

  predicate RunWithTxids(w: Writer, actions: seq<Action>)
    decreases |actions|
  {
    actions != [] && Enabled(w, actions[0]) ==>
      TxidsLeft(w, actions[0]) && RunWithTxids(Apply(w, actions[0]), actions[1..])
  }

  predicate Counted(w: Writer) {
    && Numbered(Attempted(w)) && |Attempted(w)| < U64_MAX
    && (!w.phase.Poisoned? ==> w.nextTxid == |w.acked| + 1)
  }

  lemma {:induction false} NewestOfNumbered(recs: seq<Rec>)
    requires Numbered(recs)
    ensures Newest(0, recs) == |recs|
    decreases |recs|
  {
    if recs != [] {
      NewestOfNumbered(recs[..|recs| - 1]);
    }
  }

  /**
   A restart that loses records only from the end: in place, or after a power loss that found no
   file with records that could vanish before another that holds anything.
   */
  predicate LosesEnd(w: Writer, a: Action) {
    a.Restart? ==> a.survivor == w.dir || HoleFree(w.dir)
  }

  predicate RunLosesEnd(w: Writer, actions: seq<Action>)
    decreases |actions|
  {
    actions != [] && Enabled(w, actions[0]) ==>
      LosesEnd(w, actions[0]) && RunLosesEnd(Apply(w, actions[0]), actions[1..])
  }

  lemma RestartCounts(w: Writer, e: Dir)
    requires Inv(w) && Counted(w) && Enabled(w, Restart(e)) && LosesEnd(w, Restart(e))
    ensures Counted(Apply(w, Restart(e)))
  {
    hide Holds, CrashTo, OpenWriter, DirRecs, Guaranteed, Settled, HandleFits, Newest, OpenDir, Frame, NextId, Openable,
      Clean, HoleFree, Anchored, Entered, Ordered, AllClean;
    CrashRecovers(w.dir, w.acked, PendingOf(w.phase), e);
    HeldRecovers(w.dir, w.acked, PendingOf(w.phase));
    if e == [] {
      NothingScanned(e);
      FreshKeeps(w.durable);
    } else {
      OpenSettled(e, w.durable);
      assert DirRecs(e) <= Attempted(w);
      NewestOfNumbered(DirRecs(e));
    }
  }

  lemma StepCounts(w: Writer, a: Action)
    requires Inv(w) && Counted(w) && Enabled(w, a) && TxidsLeft(w, a) && LosesEnd(w, a)
    ensures Counted(Apply(w, a))
  {
    hide Holds, LosesEnd, Guaranteed, Frame, CrashTo, OpenWriter, NextId, Extend, SyncLast, SyncEntries, Settled;
    var all, x := Attempted(w), Apply(w, a);
    assert forall i :: 0 <= i < |w.acked| ==> all[i] == w.acked[i];
    match a
    case Restart(e) => RestartCounts(w, e);
    case BeginAppend(_, _, _) => assert Attempted(x) == w.acked + [x.phase.pending.rec];
    case FinishAppend =>
      assert all[|w.acked|] == w.phase.pending.rec;
      assert Attempted(x) == all;
    case _ => assert Attempted(x) == all;
  }

  /**
   A store created fresh carries the txids 1..n in scan order, across rotates, failures, power
   losses and restarts, as long as txids are left; and the handle continues with n + 1.
   */
  lemma {:induction false} RunCounts(w: Writer, actions: seq<Action>, x: Writer)
    requires Inv(w) && Counted(w) && Runs(w, actions, x)
    requires RunWithinLimit(w, actions) && RunWithTxids(w, actions) && RunLosesEnd(w, actions)
    ensures Inv(x) && Counted(x)
    decreases |actions|
  {
    hide Inv, Counted, Enabled, Apply, WithinLimit, TxidsLeft, LosesEnd;
    if actions != [] {
      StepKeeps(w, actions[0]);
      StepCounts(w, actions[0]);
      RunCounts(Apply(w, actions[0]), actions[1..], x);
    }
  }

  lemma FreshStoreIsNumbered(actions: seq<Action>, x: Writer)
    requires Runs(OpenWriter([], []), actions, x) && RunWithinLimit(OpenWriter([], []), actions)
    requires RunWithTxids(OpenWriter([], []), actions) && RunLosesEnd(OpenWriter([], []), actions)
    ensures Numbered(Found(x.dir))
    ensures !x.phase.Poisoned? && !x.phase.Appending? ==> x.nextTxid == |Found(x.dir)| + 1
  {
    hide Runs, RunWithinLimit, RunWithTxids, RunLosesEnd, OpenWriter, Inv, Found;
    FreshKeeps([]);
    RunCounts(OpenWriter([], []), actions, x);
    PoisonContainment([], actions, x);
    assert Found(x.dir) <= Attempted(x);
  }

  lemma LastTxidOf(x: Writer)
    requires Inv(x)
    ensures ScanDir(Listed(x.dir)).state.lastTxid == Newest(0, Found(x.dir))
  {
    hide Holds, Guaranteed, Listed, DirRecs, DirRecords, Strip, Newest, ScanDir, Ordered;
    HoldsFacts(x.dir, x.acked, PendingOf(x.phase));
    HeldRecovers(x.dir, x.acked, PendingOf(x.phase));
    OrderedBelow(x.dir);
    ListedAll(x.dir);
    ScanGives(x.dir);
    FoundIs(x.dir);
  }

  // ------------------------------------------------------------------ any store

  /** A power loss brings up no record that was not there. */
  lemma {:induction false} SealedMembers(d: Dir, e: Dir)
    requires Sealed(d) && CrashTo(d, e)
    ensures forall r <- DirRecs(e) :: r in DirRecs(d)
    decreases |d|
  {
    hide Parse, Clean;
    if d != [] {
      DirRecsSplit(d);
      SealedParts(d);
      if e != [] && Survives(Last(d), Last(e)) && CrashTo(Front(d), Front(e)) {
        SealedMembers(Front(d), Front(e));
        DirRecsSplit(e);
        assert Last(e).bytes == Last(d).bytes;
      } else {
        SealedMembers(Front(d), e);
      }
    }
  }

  lemma CrashMembers(d: Dir, recs: seq<Rec>, p: Option<Pending>, e: Dir)
    requires Holds(d, recs, p) && CrashTo(d, e)
    ensures forall r <- DirRecs(e) :: r in DirRecs(d)
  {
    hide Parse, Clean, Holds, DirRecs, Survives;
    LastSynced(d, recs, p);
    DirRecsSplit(d);
    if e != [] && Survives(Last(d), Last(e)) && CrashTo(Front(d), Front(e)) {
      SealedMembers(Front(d), Front(e));
      SurvivorParts(d, recs, p, Last(e));
      DirRecsSplit(e);
      var x, y := Parse(Last(e).bytes).recs, Parse(Last(d).bytes).recs;
      assert forall r <- x :: r in y[..|x|];
    } else {
      SealedMembers(Front(d), e);
    }
  }

  /** The next txid is one above the largest, as long as that is below the bound. */
  predicate InStep(w: Writer) {
    && Newest(0, Attempted(w)) < U64_MAX
    && (!w.phase.Poisoned? ==> w.nextTxid == Newest(0, w.acked) + 1)
  }

  lemma NewestSnoc(recs: seq<Rec>, r: Rec)
    ensures Newest(0, recs + [r]) == if r.txid > Newest(0, recs) then r.txid else Newest(0, recs)
  {
    assert (recs + [r])[..|recs|] == recs;
  }

  lemma NothingPending(w: Writer)
    requires w.phase == Idle
    ensures Attempted(w) == w.acked
  {
  }

  lemma NewestOfSome(all: seq<Rec>, some: seq<Rec>)
    requires forall r <- some :: r in all
    ensures Newest(0, some) <= Newest(0, all)
  {
    hide Newest;
    NewestIsMax(0, all);
    NewestIsMax(0, some);
  }

  lemma RestartStaysInStep(w: Writer, e: Dir)
    requires Inv(w) && InStep(w) && Enabled(w, Restart(e))
    ensures InStep(Apply(w, Restart(e)))
  {
    hide Holds, CrashTo, OpenWriter, DirRecs, Guaranteed, Settled, HandleFits, Newest, OpenDir, Frame, NextId, Openable,
      Clean, Entered, AllClean, Ordered, Sealed;
    var all := Attempted(w);
    if e == [] {
      CrashRecovers(w.dir, w.acked, PendingOf(w.phase), e);
      NothingScanned(e);
      FreshKeeps(w.durable);
      NewestOfNumbered([]);
    } else {
      OpenSettled(e, w.durable);
      CrashMembers(w.dir, w.acked, PendingOf(w.phase), e);
      HeldRecovers(w.dir, w.acked, PendingOf(w.phase));
      assert forall r <- DirRecs(w.dir) :: r in all;
      NewestOfSome(all, DirRecs(e));
    }
    NothingPending(OpenWriter(e, w.durable));
  }

  lemma PendingTxid(w: Writer)
    requires Inv(w) && w.phase.Appending?
    ensures w.phase.pending.rec.txid == w.nextTxid
  {
    hide Holds, Guaranteed;
  }

  lemma StepStaysInStep(w: Writer, a: Action)
    requires Inv(w) && InStep(w) && Enabled(w, a) && TxidsLeft(w, a)
    ensures InStep(Apply(w, a))
  {
    hide Inv, Newest, Frame, CrashTo, OpenWriter, NextId, Extend, SyncLast, SyncEntries, Settled, Entered;
    var x := Apply(w, a);
    match a
    case Restart(e) => RestartStaysInStep(w, e);
    case BeginAppend(kind, key, payload) => NewestSnoc(w.acked, Rec(kind, w.nextTxid, key, payload));
    case FinishAppend =>
      PendingTxid(w);
      NewestSnoc(w.acked, w.phase.pending.rec);
      assert Attempted(x) == Attempted(w);
    case _ => assert Attempted(x) == Attempted(w);
  }

  lemma {:induction false} RunStaysInStep(w: Writer, actions: seq<Action>, x: Writer)
    requires Inv(w) && InStep(w) && Runs(w, actions, x)
    requires RunWithinLimit(w, actions) && RunWithTxids(w, actions)
    ensures Inv(x) && InStep(x)
    decreases |actions|
  {
    hide Inv, InStep, Enabled, Apply, WithinLimit, TxidsLeft;
    if actions != [] {
      StepKeeps(w, actions[0]);
      StepStaysInStep(w, actions[0]);
      RunStaysInStep(Apply(w, actions[0]), actions[1..], x);
    }
  }

  /**
   On every handle opened without a torn tail whose txids are below the bound, and that is neither
   poisoned nor in the middle of an append, a rescan computes the next txid that the handle has.
   */
  lemma ScanKeepsNextTxid(d: Dir, actions: seq<Action>, x: Writer)
    requires (d == [] || Settled(d)) && Newest(0, DirRecs(d)) < U64_MAX && Runs(OpenWriter(d, []), actions, x)
    requires RunWithinLimit(OpenWriter(d, []), actions) && RunWithTxids(OpenWriter(d, []), actions)
    requires !x.phase.Poisoned? && !x.phase.Appending?
    ensures TxidAfter(ScanDir(Listed(x.dir)).state.lastTxid) == x.nextTxid
  {
    hide Runs, RunWithinLimit, RunWithTxids, OpenWriter, Inv, Found, DirRecs, Settled, Newest, ScanDir, Listed;
    StartKeeps(d);
    if d == [] {
      FreshKeeps([]);
      NewestOfNumbered([]);
    } else {
      OpenSettled(d, []);
    }
    NothingPending(OpenWriter(d, []));
    RunStaysInStep(OpenWriter(d, []), actions, x);
    PoisonContainment(d, actions, x);
    LastTxidOf(x);
  }
}
