/**
 The guarantees of the writer over whole runs: every reachable state keeps the invariant, so a
 power loss at any point leaves a log that opens with everything that was promised to be durable;
 and as long as no file with records can vanish before another that holds anything, it opens on a
 prefix of what was appended.
 */
module CrashSafety {
  import opened Bytes
  import opened Format
  import opened Recovery
  import opened Segment
  import opened Scan
  import opened ScanFacts
  import opened Writer
  import opened WriterInv

  // ------------------------------------------------------------------ appending

  lemma BeginKeeps(w: Writer, rec: Rec)
    requires Inv(w) && w.phase == Idle && rec.txid == w.nextTxid
    ensures Inv(w.(phase := Appending(Pending(rec, 0))))
  {
    hide Frame, Frames, Parse, DirRecs, Sealed, Ordered;
    assert Piece(Some(Pending(rec, 0))) == [];
  }

  lemma ExtendShape(d: Dir, chunk: seq<Byte>, recs: seq<Rec>)
    requires d != []
    ensures var e := Extend(d, chunk);
      |e| == |d| && Front(e) == Front(d) && Tail(e, recs) == Tail(d, recs)
      && Last(e) == Last(d).(bytes := Last(d).bytes + chunk)
  {
    hide DirRecs;
  }

  lemma JoinPieces(t: seq<Byte>, f: seq<Byte>, m: nat, n: nat)
    requires m + n <= |f|
    ensures (t + f[..m]) + f[m..m + n] == t + f[..m + n]
  {
    assert f[..m] + f[m..m + n] == f[..m + n];
  }

  lemma IdsKeepOrder(d: Dir, e: Dir)
    requires d != [] && |e| == |d| && Front(e) == Front(d) && Last(e).id == Last(d).id && Ordered(d)
    ensures Ordered(e)
  {
    assert forall i :: 0 <= i < |d| - 1 ==> e[i] == Front(e)[i] && d[i] == Front(d)[i];
  }

  lemma ExtendHolds(d: Dir, recs: seq<Rec>, p: Pending, n: nat)
    requires Holds(d, recs, Some(p)) && p.written + n <= |Frame(p.rec)|
    ensures var chunk := Frame(p.rec)[p.written..p.written + n];
      Holds(Extend(d, chunk), recs, Some(Pending(p.rec, p.written + n)))
  {
    hide Frame, Frames, DirRecs, Sealed, Ordered, Tail, Extend;
    var f, chunk := Frame(p.rec), Frame(p.rec)[p.written..p.written + n];
    var e := Extend(d, chunk);
    ExtendShape(d, chunk, recs);
    IdsKeepOrder(d, e);
    JoinPieces(Frames(Tail(d, recs)), f, p.written, n);
  }

  lemma HoldsFacts(d: Dir, recs: seq<Rec>, p: Option<Pending>)
    requires Holds(d, recs, p)
    ensures d != [] && Ordered(d) && Last(d).id < ID_LIMIT && Sealed(Front(d))
    ensures Last(d).synced <= |Last(d).bytes|
  {
  }

  lemma WriteKeeps(w: Writer, n: nat)
    requires Inv(w) && Enabled(w, WriteBytes(n))
    ensures Inv(Apply(w, WriteBytes(n)))
  {
    hide Frame, Frames, Parse, DirRecs, Holds, Sealed, Ordered, Tail, Entered;
    var p := w.phase.pending;
    ExtendHolds(w.dir, w.acked, p, n);
    var e := Apply(w, WriteBytes(n)).dir;
    HoldsFacts(w.dir, w.acked, Some(p));
    assert SyncedPart(Last(e)) == SyncedPart(Last(w.dir));
  }

  lemma FinishHolds(d: Dir, recs: seq<Rec>, p: Pending)
    requires Holds(d, recs, Some(p)) && p.written == |Frame(p.rec)|
    ensures Holds(d, recs + [p.rec], None)
  {
    hide Frame, Frames, DirRecs, Sealed;
    FramesSnoc(Tail(d, recs), p.rec);
    assert Frame(p.rec)[..p.written] == Frame(p.rec);
    assert Tail(d, recs + [p.rec]) == Tail(d, recs) + [p.rec];
    var f := Frames(Tail(d, recs + [p.rec]));
    assert f + [] == f;
  }

  lemma FinishKeeps(w: Writer)
    requires Inv(w) && Enabled(w, FinishAppend)
    ensures Inv(Apply(w, FinishAppend))
  {
    hide Frame, Frames, Parse, DirRecs, Holds, Guaranteed, Tail;
    FinishHolds(w.dir, w.acked, w.phase.pending);
  }

  // ------------------------------------------------------------------ syncing

  lemma SyncHolds(d: Dir, recs: seq<Rec>)
    requires Holds(d, recs, None)
    ensures var e := SyncLast(d);
      Holds(e, recs, None) && Guaranteed(d) <= Guaranteed(e) && (Entered(d) ==> Guaranteed(e) == recs)
  {
    hide Frame, Frames, DirRecs, Sealed, Parse, Entered;
    var e := SyncLast(d);
    IdsKeepOrder(d, e);
    assert Tail(e, recs) == Tail(d, recs);
    EnteredParts(d);
    EnteredParts(e);
    GuaranteedIsFound(e, recs, None);
    assert Survives(Last(d), Last(e));
    SurvivorParts(d, recs, None, Last(e));
    PrefixConcat(DirRecs(Front(d)), Parse(SyncedPart(Last(d))).recs, Parse(SyncedPart(Last(e))).recs);
  }

  lemma SyncKeeps(w: Writer, a: Action)
    requires Inv(w) && Enabled(w, a) && (a == FsyncFile(true) || a == RotateSync(true))
    ensures Inv(Apply(w, a))
  {
    hide Frame, Frames, Parse, DirRecs, Holds, Guaranteed, Tail, Entered;
    SyncHolds(w.dir, w.acked);
    HeldRecovers(w.dir, w.acked, None);
    GuaranteedIsFound(w.dir, w.acked, None);
  }

  lemma EntriesShape(d: Dir)
    requires d != []
    ensures var e := SyncEntries(d);
      && |e| == |d| && Front(e) == SyncEntries(Front(d)) && Last(e) == Last(d).(entry := true) && Entered(e)
      && DirRecs(Front(e)) == DirRecs(Front(d)) && DirRecs(e) == DirRecs(d)
      && (Ordered(d) ==> Ordered(e)) && (Sealed(Front(d)) ==> Sealed(Front(e)))
  {
    hide DirRecs, Parse;
    SameRecs(Front(d), SyncEntries(Front(d)));
    SameRecs(d, SyncEntries(d));
  }

  lemma EntriesHold(d: Dir, recs: seq<Rec>)
    requires Holds(d, recs, None) && Last(d).synced == |Last(d).bytes|
    ensures Holds(SyncEntries(d), recs, None) && Guaranteed(SyncEntries(d)) == recs
    ensures var e := SyncEntries(d); |e| == |d| && Last(e) == Last(d).(entry := true)
  {
    hide Frame, Frames, DirRecs, Parse, Clean, Ordered, Sealed, SyncEntries, Entered, Guaranteed;
    var e := SyncEntries(d);
    EntriesShape(d);
    assert Tail(e, recs) == Tail(d, recs);
    GuaranteedIsFound(e, recs, None);
  }

  lemma EntriesKeep(w: Writer, a: Action)
    requires Inv(w) && Enabled(w, a) && (a == FsyncEntries(true) || a == RotateEnter(true))
    ensures Inv(Apply(w, a))
  {
    hide Frame, Frames, Parse, DirRecs, Holds, Guaranteed, SyncEntries, Tail;
    HoldsFacts(w.dir, w.acked, None);
    EntriesHold(w.dir, w.acked);
  }

  // ------------------------------------------------------------------ rotating

  lemma NextIdOf(d: Dir)
    requires d != [] && Ordered(d) && Last(d).id < ID_LIMIT
    ensures NextId(d) == Ok(Last(d).id + 1)
  {
    OrderedBelow(d);
    ListedAll(d);
  }

  lemma CreateHolds(d: Dir, recs: seq<Rec>, id: U32)
    requires Holds(d, recs, None) && Last(d).synced == |Last(d).bytes|
    requires Last(d).id < id < ID_LIMIT
    ensures var e := d + [NewSegment(id)];
      Holds(e, recs, None) && Guaranteed(d) <= Guaranteed(e)
  {
    hide Frame, DirRecs, Parse, Clean, Entered;
    HeldRecovers(d, recs, None);
    GuaranteedIsFound(d, recs, None);
    var e := d + [NewSegment(id)];
    assert Front(e) == d && Last(e) == NewSegment(id);
    assert d == Front(d) + [Last(d)];
    assert Tail(e, recs) == [];
    assert Guaranteed(e) == if Entered(d) then DirRecs(d) + [] else Guaranteed(d);
    hide Guaranteed;
  }

  lemma CreateKeeps(w: Writer, a: Action)
    requires Inv(w) && Enabled(w, a) && a.RotateCreate? && Last(w.dir).id + 1 < ID_LIMIT
    ensures Inv(Apply(w, a))
  {
    hide Frame, Frames, Parse, DirRecs, Holds, Guaranteed, NextId, Tail;
    HoldsFacts(w.dir, w.acked, None);
    NextIdOf(w.dir);
    CreateHolds(w.dir, w.acked, Last(w.dir).id + 1);
    HeldRecovers(w.dir, w.acked, None);
    GuaranteedIsFound(w.dir, w.acked, None);
    assert Last(w.dir + [NewSegment(Last(w.dir).id + 1)]).bytes == [];
  }

  // ------------------------------------------------------------------ power loss

  lemma FirstBelow(kept: seq<nat>, n: nat)
    requires kept != [] && forall i :: 0 <= i < |kept| ==> kept[i] < n
    ensures n > 0
  {
    assert kept[0] < n;
  }

  /**
   What a power loss may do, all at once: pick the files to keep, among them all with a durable
   entry, and cut each at any length that its synced part fits in.
   */
  lemma {:induction false} PowerLossCan(d: Dir, kept: seq<nat>, e: Dir)
    requires |kept| == |e| && (forall i :: 0 <= i < |kept| ==> kept[i] < |d|)
    requires forall i, j :: 0 <= i < j < |kept| ==> kept[i] < kept[j]
    requires forall n: nat :: n < |d| && d[n].entry ==> n in kept
    requires forall i :: 0 <= i < |e| ==>
      var s, t := d[kept[i]], e[i];
      && t.id == s.id && s.synced <= |t.bytes| <= |s.bytes| && t.bytes == s.bytes[..|t.bytes|]
      && s.synced <= t.synced <= |t.bytes| && (s.entry ==> t.entry)
    ensures CrashTo(d, e)
    decreases |d|
  {
    if d == [] {
      if kept != [] {
        FirstBelow(kept, |d|);
      }
    } else {
      var m := |kept| - 1;
      if kept != [] && kept[m] == |d| - 1 {
        assert Survives(Last(d), Last(e));
        PowerLossCan(Front(d), kept[..m], Front(e));
      } else {
        assert |d| - 1 !in kept;
        PowerLossCan(Front(d), kept, e);
      }
    }
  }

  /** And it does nothing else. */
  lemma {:induction false} PowerLossOnly(d: Dir, e: Dir) returns (kept: seq<nat>)
    requires CrashTo(d, e)
    ensures |kept| == |e| && (forall i :: 0 <= i < |kept| ==> kept[i] < |d|)
    ensures forall i, j :: 0 <= i < j < |kept| ==> kept[i] < kept[j]
    ensures forall n: nat :: n < |d| && d[n].entry ==> n in kept
    ensures forall i :: 0 <= i < |e| ==>
      var s, t := d[kept[i]], e[i];
      && t.id == s.id && s.synced <= |t.bytes| <= |s.bytes| && t.bytes == s.bytes[..|t.bytes|]
      && s.synced <= t.synced <= |t.bytes| && (s.entry ==> t.entry)
    decreases |d|
  {
    if d == [] {
      kept := [];
    } else if e != [] && Survives(Last(d), Last(e)) && CrashTo(Front(d), Front(e)) {
      kept := PowerLossOnly(Front(d), Front(e));
      kept := kept + [|d| - 1];
    } else {
      kept := PowerLossOnly(Front(d), e);
    }
  }

  // ------------------------------------------------------------------ restarting

  /** The records that opening a directory recovers. */
  function Found(e: Dir): seq<Rec> {
    Strip(ScanDir(Listed(e)).state.records)
  }

  lemma SettledHolds(d: Dir)
    requires Settled(d)
    ensures Holds(d, DirRecs(d), None)
  {
    hide Parse, Frame, Frames, DirRecs;
    DirRecsSplit(d);
    ParsedAreFrames(Last(d).bytes);
    assert Tail(d, DirRecs(d)) == Parse(Last(d).bytes).recs;
    assert Last(d).bytes[..|Last(d).bytes|] == Last(d).bytes;
    var b := Last(d).bytes;
    assert b + [] == b;
  }

  /** Opening resumes at the logical end of the last segment, behind all the records recovered. */
  lemma OpenResumes(d: Dir, durable: seq<Rec>)
    requires Opens(d)
    ensures var w := OpenWriter(d, durable);
      && w.dir == d && w.phase == Idle && w.activeId == Last(d).id && w.activeSize == Parse(Last(d).bytes).end
      && w.acked == DirRecs(d) && w.nextTxid == TxidAfter(Newest(0, DirRecs(d))) && w.durable == durable
    ensures ScanDir(Listed(d)).error.None? && Found(d) == DirRecs(d)
    ensures ScanDir(Listed(d)).state.tailBytes == |Last(d).bytes| - Parse(Last(d).bytes).end
  {
    OrderedBelow(d);
    ListedAll(d);
    ScanGives(d);
    RecordsMatchRecs(d);
    hide Parse, DirRecs, DirRecords, Strip, Newest, ScanDir, Listed, Ordered;
  }

  /** Fewer than 24 bytes behind the last frame, whatever they are, cost nothing but themselves. */
  lemma JunkTailOpens(d: Dir, recs: seq<Rec>, junk: seq<Byte>, durable: seq<Rec>)
    requires d != [] && Ordered(d) && Last(d).id < ID_LIMIT && AllClean(Front(d))
    requires Last(d).bytes == Frames(recs) + junk && |junk| < 24
    ensures Opens(d) && Found(d) == DirRecs(Front(d)) + recs
    ensures ScanDir(Listed(d)).error.None? && ScanDir(Listed(d)).state.tailBytes == |junk|
    ensures var w := OpenWriter(d, durable);
      w.dir == d && w.acked == DirRecs(Front(d)) + recs && w.activeSize == |Frames(recs)|
  {
    hide Parse, DirRecs, OpenWriter, Found, Newest, ScanDir, Listed, Ordered, Frames, DecodeNext;
    if junk == [] {
      assert Frames(recs) + junk == Frames(recs);
      FramesParse(recs);
    } else {
      DecodeVerdict(junk, 0);
      StopsAtDamage(recs, junk);
    }
    OpenResumes(d, durable);
    DirRecsSplit(d);
  }

  /** Over a clean tail that is the physical end. */
  lemma OpenSettled(d: Dir, durable: seq<Rec>)
    requires Settled(d)
    ensures Opens(d)
    ensures var w := OpenWriter(d, durable);
      && w.dir == d && w.phase == Idle && w.activeId == Last(d).id && w.activeSize == |Last(d).bytes|
      && w.acked == DirRecs(d) && w.nextTxid == TxidAfter(Newest(0, DirRecs(d))) && w.durable == durable
  {
    hide Holds, OpenWriter, DirRecs, Newest, ScanDir, Listed;
    SettledHolds(d);
    HeldRecovers(d, DirRecs(d), None);
    OpenResumes(d, durable);
    hide Parse, Ordered;
    assert Parse(Last(d).bytes).stop.AtEnd?;
  }

  lemma FreshDirectory()
    ensures var d := OpenDir([]);
      d == [Seg(1, [], 0, true)] && Settled(d) && Anchored(d) && Anchored([]) && DirRecs(d) == []
  {
    hide DecodeNext;
    var d := OpenDir([]);
    assert d == [Seg(1, [], 0, true)];
    assert Clean([]) && DirRecs(Front(d)) == [];
    DirRecsSplit(d);
  }

  lemma FreshIsOpened(durable: seq<Rec>)
    ensures OpenWriter([], durable) == OpenWriter(OpenDir([]), durable)
  {
    hide ScanDir, Listed, Strip;
    FreshDirectory();
  }

  lemma FreshKeeps(durable: seq<Rec>)
    requires durable == []
    ensures Inv(OpenWriter([], durable))
    ensures var w := OpenWriter([], durable); w.acked == [] && w.nextTxid == 1 && w.phase == Idle
  {
    hide OpenWriter, OpenDir, DirRecs, Settled, Holds;
    var d := OpenDir([]);
    FreshDirectory();
    FreshIsOpened(durable);
    OpenSettled(d, durable);
    SettledHolds(d);
  }

  lemma RestartKeeps(w: Writer, e: Dir)
    requires Inv(w) && Enabled(w, Restart(e))
    ensures Inv(Apply(w, Restart(e)))
  {
    hide CrashTo, Frame, Frames, Parse, DirRecs, Holds, Guaranteed, OpenWriter, Tail, Survives, HoleFree;
    CrashRecovers(w.dir, w.acked, PendingOf(w.phase), e);
    if e == [] {
      NothingScanned(e);
      FreshKeeps(w.durable);
    } else {
      OpenSettled(e, w.durable);
      SettledHolds(e);
    }
  }

  // ------------------------------------------------------------------ whole runs

  /** The listing recognises names of eight digits only, so a run must stay below that limit. */
  predicate WithinLimit(w: Writer, a: Action) {
    a.RotateCreate? ==> w.dir != [] && Last(w.dir).id + 1 < ID_LIMIT
  }

  predicate RunWithinLimit(w: Writer, actions: seq<Action>)
    decreases |actions|
  {
    actions != [] && Enabled(w, actions[0]) ==>
      WithinLimit(w, actions[0]) && RunWithinLimit(Apply(w, actions[0]), actions[1..])
  }

  lemma {:induction false} NoRotateWithinLimit(w: Writer, acts: seq<Action>)
    requires forall a <- acts :: !a.RotateCreate?
    ensures RunWithinLimit(w, acts)
    decreases |acts|
  {
    hide Enabled, Apply;
    if acts != [] && Enabled(w, acts[0]) {
      NoRotateWithinLimit(Apply(w, acts[0]), acts[1..]);
    }
  }

  lemma {:induction false} StaysPut(d: Dir)
    requires forall i :: 0 <= i < |d| ==> d[i].synced <= |d[i].bytes|
    ensures CrashTo(d, d)
    decreases |d|
  {
    if d != [] {
      StaysPut(Front(d));
    }
  }

  lemma StepKeeps(w: Writer, a: Action)
    requires Inv(w) && Enabled(w, a) && WithinLimit(w, a)
    ensures Inv(Apply(w, a))
  {
    hide Holds, Guaranteed, Frame, Frames, Settled, OpenWriter, NextId, SyncEntries, Extend, SyncLast, CrashTo;
    match a
    case BeginAppend(kind, key, payload) => BeginKeeps(w, Rec(kind, w.nextTxid, key, payload));
    case WriteBytes(n) => WriteKeeps(w, n);
    case FinishAppend => FinishKeeps(w);
    case FsyncFile(ok) => if ok { SyncKeeps(w, a); }
    case FsyncEntries(ok) => if ok { EntriesKeep(w, a); }
    case RotateSync(ok) => if ok { SyncKeeps(w, a); }
    case RotateCreate(_) => CreateKeeps(w, a);
    case RotateEnter(ok) => if ok { EntriesKeep(w, a); }
    case Restart(e) => RestartKeeps(w, e);
    case _ =>
  }

  lemma {:induction false} RunKeeps(w: Writer, actions: seq<Action>, x: Writer)
    requires Inv(w) && Runs(w, actions, x) && RunWithinLimit(w, actions)
    ensures Inv(x)
    decreases |actions|
  {
    hide Inv, Enabled, Apply;
    if actions != [] {
      StepKeeps(w, actions[0]);
      RunKeeps(Apply(w, actions[0]), actions[1..], x);
    }
  }

  // ------------------------------------------------------------------ no holes

  /**
   A run anchors its restarts if each comes up on a directory whose segments before the last
   cannot vanish, as they cannot after a power loss or a completed rotate. A restart in place after
   an interrupted rotate is such a restart, unless the segment rotated away from was itself still
   waiting for its entry to be made durable.
   */
  predicate RunAnchored(w: Writer, actions: seq<Action>)
    decreases |actions|
  {
    actions != [] && Enabled(w, actions[0]) ==>
      (actions[0].Restart? ==> Anchored(actions[0].survivor)) && RunAnchored(Apply(w, actions[0]), actions[1..])
  }

  /** Only between the creation of a segment and the sync of its entry may an older one still vanish. */
  predicate NoHole(w: Writer) {
    HoleFree(w.dir) && (w.phase.RotateCreated? || w.phase.Poisoned? || Anchored(w.dir))
  }

  lemma AnchoredHoleFree(d: Dir)
    requires Anchored(d)
    ensures HoleFree(d)
  {
    hide Entered;
    if d != [] {
      EnteredHoleFree(Front(d));
    }
  }

  lemma CreateLeavesNoHole(d: Dir, s: Seg)
    requires HoleFree(d) && s.bytes == []
    ensures HoleFree(d + [s])
  {
    hide Entered;
    assert Front(d + [s]) == d;
  }

  lemma EntriesLeaveNoHole(d: Dir)
    ensures HoleFree(SyncEntries(d)) && Anchored(SyncEntries(d))
  {
    hide HoleFree, SyncEntries;
    var e := SyncEntries(d);
    if d != [] {
      assert forall i :: 0 <= i < |e| - 1 ==> Front(e)[i] == e[i];
      EntriesShape(d);
    }
    AnchoredHoleFree(e);
  }

  lemma RestartLeavesNoHole(d: Dir, durable: seq<Rec>)
    requires Anchored(d)
    ensures NoHole(OpenWriter(d, durable))
  {
    hide Entered, HoleFree, ScanDir, Listed;
    FreshDirectory();
    AnchoredHoleFree(OpenWriter(d, durable).dir);
  }

  lemma StepLeavesNoHole(w: Writer, a: Action)
    requires NoHole(w) && Enabled(w, a) && (a.Restart? ==> Anchored(a.survivor))
    ensures NoHole(Apply(w, a))
  {
    hide HoleFree, Entered, Frame, CrashTo, Settled, NextId, SyncEntries, OpenWriter;
    var x := Apply(w, a);
    match a
    case Restart(e) => RestartLeavesNoHole(e, w.durable);
    case RotateCreate(_) => CreateLeavesNoHole(w.dir, NewSegment(NextId(w.dir).value));
    case FsyncEntries(_) => EntriesLeaveNoHole(w.dir);
    case RotateEnter(_) => EntriesLeaveNoHole(w.dir);
    case WriteBytes(_) => AnchoredHoleFree(x.dir);
    case FsyncFile(ok) => if ok { AnchoredHoleFree(x.dir); }
    case RotateSync(ok) => if ok { AnchoredHoleFree(x.dir); }
    case _ =>
  }

  lemma {:induction false} RunLeavesNoHole(w: Writer, actions: seq<Action>, x: Writer)
    requires NoHole(w) && Runs(w, actions, x) && RunAnchored(w, actions)
    ensures NoHole(x)
    decreases |actions|
  {
    hide NoHole, Enabled, Apply, Anchored;
    if actions != [] {
      StepLeavesNoHole(w, actions[0]);
      RunLeavesNoHole(Apply(w, actions[0]), actions[1..], x);
    }
  }

  // ------------------------------------------------------------------ the theorems

  lemma StartKeeps(d: Dir)
    requires d == [] || Settled(d)
    ensures Inv(OpenWriter(d, []))
  {
    if d == [] {
      FreshKeeps([]);
    } else {
      OpenSettled(d, []);
      SettledHolds(d);
    }
  }

  lemma StartLeavesNoHole(d: Dir)
    requires Anchored(d)
    ensures NoHole(OpenWriter(d, []))
  {
    RestartLeavesNoHole(d, []);
  }

  /** What a successful scan of a directory yields, without the places. */
  lemma FoundIs(d: Dir)
    requires Openable(d)
    ensures ScanDir(d).error.None? && Strip(ScanDir(d).state.records) == DirRecs(d)
  {
    RecordsMatchRecs(d);
    if d != [] {
      ScanGives(d);
    }
  }

  lemma CrashOpens(x: Writer, e: Dir)
    requires Inv(x) && CrashTo(x.dir, e)
    ensures ScanDir(Listed(e)).error.None? && Found(e) == DirRecs(e) && x.durable <= Found(e)
    ensures HoleFree(x.dir) ==> Found(e) <= Attempted(x)
  {
    hide CrashTo, Holds, Parse, DirRecs, Guaranteed, Listed, Ordered, ScanDir, Strip, HoleFree;
    var p := PendingOf(x.phase);
    HoldsFacts(x.dir, x.acked, p);
    CrashRecovers(x.dir, x.acked, p, e);
    HeldRecovers(x.dir, x.acked, p);
    OrderedBelow(x.dir);
    CrashIds(x.dir, e);
    ListedAll(e);
    FoundIs(e);
  }

  /**
   Crash safety: start a handle on any directory without a torn tail, or on an empty one; let it
   take any steps, successful or failing, with any number of power losses, and restarts without a
   torn tail, in place or after a power loss; then cut the power. The log opens with everything
   promised at its front. And if at that point no file with records could vanish before another
   that holds anything, as it never can if the start and the restarts were anchored, what it
   finds is a prefix of what was appended.
   */
  lemma RunSurvivesPowerLoss(d: Dir, actions: seq<Action>, x: Writer, e: Dir)
    requires (d == [] || Settled(d)) && Runs(OpenWriter(d, []), actions, x)
    requires RunWithinLimit(OpenWriter(d, []), actions)
    requires CrashTo(x.dir, e)
    ensures ScanDir(Listed(e)).error.None? && x.durable <= Found(e)
    ensures HoleFree(x.dir) ==> Found(e) <= Attempted(x)
    ensures Anchored(d) && RunAnchored(OpenWriter(d, []), actions) ==> HoleFree(x.dir)
  {
    hide Inv, Runs, RunWithinLimit, RunAnchored, CrashTo, Enabled, Apply, ScanDir, OpenWriter, HoleFree, Found, Attempted,
      Settled, Listed;
    StartKeeps(d);
    RunKeeps(OpenWriter(d, []), actions, x);
    CrashOpens(x, e);
    if Anchored(d) && RunAnchored(OpenWriter(d, []), actions) {
      StartLeavesNoHole(d);
      RunLeavesNoHole(OpenWriter(d, []), actions, x);
    }
  }

  lemma InvRecovers(x: Writer)
    requires Inv(x)
    ensures x.dir != [] && AllClean(Front(x.dir)) && ScanDir(Listed(x.dir)).error.None?
    ensures Found(x.dir) == x.acked || (PendingOf(x.phase).Some? && Found(x.dir) == Attempted(x))
  {
    hide Holds, Guaranteed, ScanDir, DirRecs, Listed, HandleFits, AllClean, Ordered, Sealed;
    var p := PendingOf(x.phase);
    HoldsFacts(x.dir, x.acked, p);
    HeldRecovers(x.dir, x.acked, p);
    SealedOpenable(Front(x.dir));
    OrderedBelow(x.dir);
    ListedAll(x.dir);
    FoundIs(x.dir);
  }

  lemma PoisonedStops(x: Writer, a: Action)
    requires x.phase.Poisoned? && Enabled(x, a)
    ensures a.Restart?
  {
    hide Frame, NextId, CrashTo, Settled;
  }

  /**
   Poison containment: whatever was written, synced or rotated, with whatever failures, every
   segment but the last is whole frames, a scan of the live directory succeeds, and it finds the
   acknowledged records, or those and the one record whose append did not return. A poisoned
   handle takes no further step; only a restart follows.
   */
  lemma PoisonContainment(d: Dir, actions: seq<Action>, x: Writer)
    requires (d == [] || Settled(d)) && Runs(OpenWriter(d, []), actions, x)
    requires RunWithinLimit(OpenWriter(d, []), actions)
    ensures x.dir != [] && AllClean(Front(x.dir)) && ScanDir(Listed(x.dir)).error.None?
    ensures Found(x.dir) == x.acked || (PendingOf(x.phase).Some? && Found(x.dir) == Attempted(x))
    ensures x.phase.Poisoned? ==> forall a :: Enabled(x, a) ==> a.Restart?
  {
    hide Runs, RunWithinLimit, Inv, OpenWriter, ScanDir, Settled, Listed, Enabled, Found, Attempted, AllClean;
    StartKeeps(d);
    RunKeeps(OpenWriter(d, []), actions, x);
    InvRecovers(x);
    forall a | x.phase.Poisoned? && Enabled(x, a)
      ensures a.Restart?
    {
      PoisonedStops(x, a);
    }
  }
}
