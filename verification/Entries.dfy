/**
 Directory entries. open syncs the directory only when it creates the first segment, so a handle
 may work on a segment whose entry is not durable yet. This module says exactly when that costs
 the order of the log.
 */
module Entries {
  import opened Bytes
  import opened Format
  import opened Recovery
  import opened Segment
  import opened Scan
  import opened ScanFacts
  import opened Writer
  import opened WriterInv
  import opened CrashSafety
  import opened Growth
  import opened Operations
  import KvRuns

  /**
   Whatever a handle opened on d goes through until it is dropped, and whatever a power loss then
   leaves, what is found is a prefix of what was appended.
   */
  ghost predicate KeepsPrefix(d: Dir) {
    forall actions: seq<Action>, x: Writer, e: Dir ::
      Runs(OpenWriter(d, []), actions, x) && RunWithinLimit(OpenWriter(d, []), actions)
      && (forall a <- actions :: !a.Restart?) && CrashTo(x.dir, e)
      ==> ScanDir(Listed(e)).error.None? && Found(e) <= Attempted(x)
  }

  /** The same through any number of restarts that are anchored themselves. */
  ghost predicate KeepsPrefixAcross(d: Dir) {
    forall actions: seq<Action>, x: Writer, e: Dir ::
      Runs(OpenWriter(d, []), actions, x) && RunWithinLimit(OpenWriter(d, []), actions)
      && RunAnchored(OpenWriter(d, []), actions) && CrashTo(x.dir, e)
      ==> ScanDir(Listed(e)).error.None? && Found(e) <= Attempted(x)
  }

  lemma {:induction false} DirRecsConcat(a: Dir, b: Dir)
    ensures DirRecs(a + b) == DirRecs(a) + DirRecs(b)
    decreases |b|
  {
    hide Parse;
    if b == [] {
      assert a + b == a;
    } else {
      DirRecsConcat(a, Front(b));
      DirRecsSplit(b);
      DirRecsSplit(a + b);
      assert Front(a + b) == a + Front(b);
    }
  }

  /** Any one file whose entry is not durable may vanish alone. */
  lemma {:induction false} VanishAlone(d: Dir, i: nat)
    requires i < |d| && !d[i].entry && forall j :: 0 <= j < |d| ==> d[j].synced <= |d[j].bytes|
    ensures CrashTo(d, d[..i] + d[i + 1..])
    decreases |d|
  {
    var front, e := Front(d), d[..i] + d[i + 1..];
    assert forall j :: 0 <= j < |front| ==> front[j] == d[j];
    if i == |d| - 1 {
      assert e == front;
      StaysPut(front);
    } else {
      VanishAlone(front, i);
      assert Last(e) == Last(d) && Front(e) == front[..i] + front[i + 1..];
    }
  }

  lemma AppendedRecs(b: Dir, rec: Rec)
    requires b != [] && Clean(Last(b).bytes)
    ensures DirRecs(Extend(b, Frame(rec))) == DirRecs(b) + [rec]
  {
    hide Frame, Parse, Extend, DirRecs, DirRecords;
    var e := Extend(b, Frame(rec));
    AppendPlaces(b, rec);
    RecordsMatchRecs(b);
    RecordsMatchRecs(e);
    var r := Record(rec, Last(b).id, |Last(b).bytes|, |Frame(rec)|);
    StripConcat(DirRecords(b), [r]);
    assert Strip([r]) == Strip([r][..0]) + [r.rec];
  }

  /** A record appended behind a file with records that vanishes. */
  lemma VanishedFront(a: Dir, s: Seg, b: Dir, rec: Rec)
    requires b != [] && Clean(Last(b).bytes)
    ensures var c := Extend(b, Frame(rec)); var n := |DirRecs(a + c)|;
      && DirRecs(a + [s] + c) == DirRecs(a + [s] + b) + [rec]
      && n > 0 && DirRecs(a + c)[n - 1] == rec
      && |DirRecs(a + [s] + c)| == n + |Parse(s.bytes).recs|
  {
    hide Parse, Frame, Extend, DirRecs;
    var c := Extend(b, Frame(rec));
    AppendedRecs(b, rec);
    DirRecsConcat(a, c);
    DirRecsConcat(a + [s], c);
    DirRecsConcat(a + [s], b);
    DirRecsConcat(a, [s]);
    DirRecsSplit([s]);
    NothingScanned(Front([s]));
  }

  lemma RecordsOfBytes(b: seq<Byte>)
    requires Clean(b) && b != []
    ensures Parse(b).recs != []
  {
    hide Parse;
    ParsedAreFrames(b);
    FramesOfNone([]);
    assert b[..|b|] == b;
  }

  /** The files around number i, with a frame added at the end and number i gone. */
  lemma AppendedAround(d: Dir, i: nat, f: seq<Byte>)
    requires i < |d| - 1
    ensures var a, s, b := d[..i], d[i], d[i + 1..]; var x := Extend(d, f);
      && b != [] && d == a + [s] + b && x == a + [s] + Extend(b, f) && x[..i] + x[i + 1..] == a + Extend(b, f)
      && x[i] == s && Last(b) == Last(d) && |x| == |d|
  {
    var a, s, b := d[..i], d[i], d[i + 1..];
    assert d == a + [s] + b && Front(d) == a + [s] + Front(b);
    assert Extend(d, f) == a + [s] + Extend(b, f);
    var x := a + [s] + Extend(b, f);
    assert x[..i] == a && x[i + 1..] == Extend(b, f);
  }

  lemma {:induction false} NoRestartAnchored(w: Writer, acts: seq<Action>)
    requires forall a <- acts :: !a.Restart?
    ensures RunAnchored(w, acts)
    decreases |acts|
  {
    hide Enabled, Apply;
    if acts != [] && Enabled(w, acts[0]) {
      NoRestartAnchored(Apply(w, acts[0]), acts[1..]);
    }
  }

  /** Of a run that starts without a torn tail, what is found is what the directory holds. */
  lemma FoundAfterRun(d: Dir, acts: seq<Action>, x: Writer, e: Dir)
    requires Settled(d) && Runs(OpenWriter(d, []), acts, x) && RunWithinLimit(OpenWriter(d, []), acts) && CrashTo(x.dir, e)
    ensures Found(e) == DirRecs(e)
  {
    hide Inv, Runs, RunWithinLimit, CrashTo, OpenWriter, Found, Settled;
    StartKeeps(d);
    RunKeeps(OpenWriter(d, []), acts, x);
    CrashOpens(x, e);
  }

  lemma ExtendKeepsSynced(d: Dir, f: seq<Byte>)
    requires d != [] && forall j :: 0 <= j < |d| ==> d[j].synced <= |d[j].bytes|
    ensures var x := Extend(d, f); |x| == |d| && forall j :: 0 <= j < |x| ==> x[j].synced <= |x[j].bytes|
  {
    assert forall j :: 0 <= j < |d| - 1 ==> Front(d)[j] == d[j];
    assert Last(d) == d[|d| - 1];
  }

  /** A run that loses the order: append one record, while a file with records before it vanishes. */
  lemma HoleBreaks(d: Dir, i: nat)
    requires Settled(d) && i < |d| - 1 && !d[i].entry && d[i].bytes != []
    ensures !KeepsPrefix(d) && !KeepsPrefixAcross(d)
  {
    hide Parse, Frame, Extend, DirRecs, OpenWriter, Runs, RunWithinLimit, RunAnchored, CrashTo, Ordered, ScanDir, Listed,
      Found;
    OpenSettled(d, []);
    var w, all, lost := OpenWriter(d, []), DirRecs(d), Parse(d[i].bytes).recs;
    RecordsOfBytes(d[i].bytes);
    var a, s, b := d[..i], d[i], d[i + 1..];
    AppendedAround(d, i, []);
    DirRecsConcat(a + [s], b);
    DirRecsConcat(a, [s]);
    DirRecsSplit([s]);
    NothingScanned(Front([s]));
    var m := |all| - |lost|;
    var kind := if all[m].kind.Raw? then Put else Raw;
    var rec := Rec(kind, w.nextTxid, [], []);
    var f := Frame(rec);
    assert f[..|f|] == f;
    var acts := [BeginAppend(kind, [], []), WriteBytes(|f|)];
    var x := w.(dir := Extend(d, f), phase := Appending(Pending(rec, |f|)));
    WriteIsRun(w, kind, [], [], |f|);
    NoRotateWithinLimit(w, acts);
    NoRestartAnchored(w, acts);
    AppendedAround(d, i, f);
    VanishedFront(a, s, b, rec);
    var e := a + Extend(b, f);
    ExtendKeepsSynced(d, f);
    VanishAlone(x.dir, i);
    FoundAfterRun(d, acts, x, e);
    assert Found(e)[m] == rec && Attempted(x) == all + [rec];
  }

  lemma NotAnchored(d: Dir) returns (i: nat)
    requires d != [] && !Anchored(d)
    ensures i < |d| - 1 && !d[i].entry && d[i].bytes != []
  {
    i :| 0 <= i < |Front(d)| && !(Front(d)[i].entry || Front(d)[i].bytes == []);
    assert Front(d)[i] == d[i];
  }

  lemma AnchoredKeepsAcross(d: Dir)
    requires Settled(d) && Anchored(d)
    ensures KeepsPrefixAcross(d)
  {
    hide OpenWriter, ScanDir, Listed, Settled, CrashTo, Runs, RunWithinLimit, RunAnchored, Found, Attempted, Anchored, HoleFree;
    forall actions: seq<Action>, x: Writer, e: Dir |
      Runs(OpenWriter(d, []), actions, x) && RunWithinLimit(OpenWriter(d, []), actions)
      && RunAnchored(OpenWriter(d, []), actions) && CrashTo(x.dir, e)
      ensures ScanDir(Listed(e)).error.None? && Found(e) <= Attempted(x)
    {
      RunSurvivesPowerLoss(d, actions, x, e);
    }
  }

  lemma AnchoredKeeps(d: Dir)
    requires Settled(d) && Anchored(d)
    ensures KeepsPrefix(d)
  {
    hide OpenWriter, ScanDir, Listed, Settled, CrashTo, Runs, RunWithinLimit, RunAnchored, Found, Attempted, Anchored, HoleFree;
    forall actions: seq<Action>, x: Writer, e: Dir |
      Runs(OpenWriter(d, []), actions, x) && RunWithinLimit(OpenWriter(d, []), actions)
      && (forall a <- actions :: !a.Restart?) && CrashTo(x.dir, e)
      ensures ScanDir(Listed(e)).error.None? && Found(e) <= Attempted(x)
    {
      NoRestartAnchored(OpenWriter(d, []), actions);
      RunSurvivesPowerLoss(d, actions, x, e);
    }
  }

  lemma SettledNotEmpty(d: Dir)
    requires Settled(d)
    ensures d != []
  {
  }

  /**
   The prefix law: a handle over a directory without a torn tail recovers a prefix of what was
   appended, after every run and power loss, if and only if every segment before the last that
   holds records has a durable entry. Runs with restarts may join in if each restart meets the
   same condition.
   */
  lemma PrefixIff(d: Dir)
    requires Settled(d)
    ensures KeepsPrefix(d) <==> Anchored(d)
    ensures KeepsPrefixAcross(d) <==> Anchored(d)
  {
    hide Settled, KeepsPrefix, KeepsPrefixAcross;
    if Anchored(d) {
      AnchoredKeeps(d);
      AnchoredKeepsAcross(d);
    } else {
      SettledNotEmpty(d);
      var i := NotAnchored(d);
      HoleBreaks(d, i);
    }
  }

  // ------------------------------------------------------------------ such a directory

  /** Two segments: the first holds one record and is synced, and neither entry is durable. */
  function Holed(r: Rec): Dir {
    [Seg(1, Frame(r), |Frame(r)|, false), Seg(2, [], 0, false)]
  }

  lemma HoledParts(r: Rec)
    ensures var d := Holed(r);
      && Front(d) == [d[0]] && Front([d[0]]) == [] && Settled(d) && !Anchored(d) && DirRecs(d) == [r]
  {
    hide Frame, Parse;
    var d := Holed(r);
    FramesOfOne(r);
    NothingParsed();
    DirRecsSplit(d);
    DirRecsSplit([d[0]]);
    NothingScanned(Front([d[0]]));
    assert Front(d) == [d[0]] && Front(d)[0] == d[0];
    assert [] + [r] == [r] && [r] + [] == [r] && Frame(r) != [];
  }

  lemma NewestOfOne(r: Rec)
    ensures Newest(0, [r]) == r.txid
  {
    assert [r][..0] == [];
  }

  lemma SealedOpens(e: Dir)
    requires |e| == 1 && e[0].id < ID_LIMIT && Clean(e[0].bytes)
    ensures ScanDir(Listed(e)).error.None? && Found(e) == DirRecs(e)
  {
    hide Parse, ScanDir, Listed, DirRecs;
    assert AllClean(Front(e)) && Last(e) == e[0];
    OpenResumes(e, []);
  }

  /**
   It opens with nothing discarded. One record appended, and the first file vanishing, leave a log
   that opens on the second record alone.
   */
  lemma HoleLosesFirst(r: Rec, s: Rec)
    requires s.txid == OpenWriter(Holed(r), []).nextTxid
    ensures ScanDir(Listed(Holed(r))).error.None? && ScanDir(Listed(Holed(r))).state.tailBytes == 0
    ensures var x := Appended(OpenWriter(Holed(r), []), s); var e := [Seg(2, Frame(s), 0, false)];
      && x.acked == [r, s] && CrashTo(x.dir, e)
      && ScanDir(Listed(e)).error.None? && Found(e) == [s] && !(Found(e) <= x.acked)
  {
    hide Frame, Parse, OpenWriter, DirRecs, ScanDir, Listed, Settled, Found, Newest;
    var d := Holed(r);
    HoledParts(r);
    OpenSettled(d, []);
    OpenResumes(d, []);
    NothingParsed();
    assert [r][..0] == [] && [r][0] == r;
    NewestOfOne(r);
    var x := Appended(OpenWriter(d, []), s);
    var t := Seg(2, Frame(s), 0, false);
    var e := [t];
    assert Extend(d, Frame(s)) == [d[0], t] by { assert [] + Frame(s) == Frame(s); }
    ExtendKeepsSynced(d, Frame(s));
    VanishAlone(x.dir, 0);
    assert x.dir[..0] + x.dir[1..] == e;
    FramesOfOne(s);
    SealedOpens(e);
    DirRecsSplit(e);
    NothingScanned(Front(e));
    assert [] + [s] == [s] && [r] + [s] == [r, s];
  }

  /** What an open that failed to sync the directory leaves. */
  lemma NewIsSettled()
    ensures Settled([NewSegment(1)])
  {
    hide Parse;
    NothingParsed();
    assert forall i :: 0 <= i < 1 ==> Clean([NewSegment(1)][i].bytes);
  }

  lemma AppendedFirst(w: Writer, r: Rec)
    requires w.dir == [NewSegment(1)]
    ensures Appended(w, r).dir == [Seg(1, Frame(r), 0, false)] && Appended(w, r).activeId == w.activeId
  {
    hide Frame;
    assert [] + Frame(r) == Frame(r);
  }

  lemma OneFile(r: Rec)
    ensures var d := [Seg(1, Frame(r), 0, false)]; Ordered(d) && Last(d).id == 1 && NewSegment(1).id == 1
    ensures Last([NewSegment(1)]).id == 1 < ID_LIMIT
  {
    hide Frame;
  }

  lemma SyncedFirst(r: Rec)
    ensures SyncLast([Seg(1, Frame(r), 0, false)]) + [NewSegment(2)] == Holed(r)
  {
    hide Frame;
  }

  /** A rotate that fails to sync the directory leaves the new file behind the synced old one. */
  lemma RotateStops(w: Writer, io: RotateOutcome, id: U32)
    requires w.dir != [] && NextId(w.dir) == Ok(id) && id > w.activeId
    requires io.syncOk && io.listOk && io.create.Created? && !io.dirOk
    ensures Rotated(w, io).dir == SyncLast(w.dir) + [NewSegment(id)]
  {
    hide NextId, SyncLast, Entered;
  }

  /** The operations reach it: one append after such an open, then a rotate that fails likewise. */
  lemma RotateLeavesHole(r: Rec)
    requires r.txid == OpenWriter([NewSegment(1)], []).nextTxid
    ensures var w := Appended(OpenWriter([NewSegment(1)], []), r);
      Rotated(w, RotateOutcome(true, true, Created, false, true)).dir == Holed(r)
  {
    hide Frame, OpenWriter, NextId, Settled, Newest, Appended, Rotated, SyncLast, Ordered, Holed, Parse, DirRecs;
    var d := [NewSegment(1)];
    NewIsSettled();
    OpenSettled(d, []);
    var w := Appended(OpenWriter(d, []), r);
    AppendedFirst(OpenWriter(d, []), r);
    OneFile(r);
    NextIdOf(w.dir);
    RotateStops(w, RotateOutcome(true, true, Created, false, true), 2);
    SyncedFirst(r);
  }

  // ------------------------------------------------------------------ a run that restarts there

  /** A rotate whose directory sync fails. */
  const HALTED := RotateOutcome(true, true, Created, false, true)

  /** Append r, let the rotate fail, reopen in place, append s. */
  function HoledRun(r: Rec, s: Rec): seq<Action> {
    AppendSteps(r.kind, r.key, r.payload, |Frame(r)|, Written)
    + [RotateSync(true), RotateCreate(Created), RotateEnter(false)]
    + [Restart(Holed(r))]
    + AppendSteps(s.kind, s.key, s.payload, |Frame(s)|, Written)
  }

  lemma {:induction false} LimitConcat(w: Writer, a: seq<Action>, x: Writer, b: seq<Action>)
    requires Runs(w, a, x) && RunWithinLimit(w, a) && RunWithinLimit(x, b)
    ensures RunWithinLimit(w, a + b)
    decreases |a|
  {
    hide Enabled, Apply, WithinLimit;
    if a == [] {
      assert a + b == b;
    } else {
      LimitConcat(Apply(w, a[0]), a[1..], x, b);
      assert (a + b)[1..] == a[1..] + b;
    }
  }

  lemma {:induction false} AnchoredRest(w: Writer, a: seq<Action>, x: Writer, b: seq<Action>)
    requires Runs(w, a, x) && RunAnchored(w, a + b)
    ensures RunAnchored(x, b)
    decreases |a|
  {
    hide Enabled, Apply, Anchored;
    if a == [] {
      assert a + b == b;
    } else {
      assert (a + b)[1..] == a[1..] + b;
      AnchoredRest(Apply(w, a[0]), a[1..], x, b);
    }
  }

  lemma AppendedRuns(w: Writer, r: Rec)
    requires w.phase == Idle && OnActive(w) && r.txid == w.nextTxid && AppendSucceeds(w, r, Written)
    ensures var acts := AppendSteps(r.kind, r.key, r.payload, |Frame(r)|, Written);
      Runs(w, acts, Appended(w, r)) && RunWithinLimit(w, acts)
    ensures var x := Appended(w, r); OnActive(x) && x.phase == Idle && x.durable == w.durable && x.acked == w.acked + [r]
  {
    hide Runs, RunWithinLimit, Frame;
    AppendIsRun(w, r.kind, r.key, r.payload, Written);
    NoRotateWithinLimit(w, AppendSteps(r.kind, r.key, r.payload, |Frame(r)|, Written));
  }

  lemma HaltedRotate(w: Writer, r: Rec)
    requires w.phase == Idle && OnActive(w) && w.dir == [Seg(1, Frame(r), 0, false)]
    ensures var x := Rotated(w, HALTED); var acts := [RotateSync(true), RotateCreate(Created), RotateEnter(false)];
      && Runs(w, acts, x) && RunWithinLimit(w, acts)
      && x.dir == Holed(r) && x.phase == Poisoned(None) && x.durable == w.durable
  {
    hide Runs, RunWithinLimit, Frame, NextId, Holed, Ordered, SyncLast;
    OneFile(r);
    NextIdOf(w.dir);
    RotateIsRun(w, HALTED);
    KvRuns.RotateStaysWithin(w, HALTED);
    RotateStops(w, HALTED, 2);
    SyncedFirst(r);
    FrameLength(r);
    assert w.dir[0].bytes != [];
  }

  lemma HoledRestart(w: Writer, r: Rec)
    requires w.dir == Holed(r) && w.durable == []
    ensures Runs(w, [Restart(Holed(r))], OpenWriter(Holed(r), [])) && RunWithinLimit(w, [Restart(Holed(r))])
    ensures Enabled(w, Restart(Holed(r))) && !Anchored(Holed(r))
  {
    hide Runs, Frame, OpenWriter, Settled, CrashTo, RunWithinLimit;
    HoledParts(r);
    StaysPut(Holed(r));
    RunsNone(w);
    RunsMore(w, [], w, Restart(Holed(r)));
    assert [] + [Restart(Holed(r))] == [Restart(Holed(r))];
    NoRotateWithinLimit(w, [Restart(Holed(r))]);
  }

  lemma NewOpens()
    ensures var d := [NewSegment(1)]; var w := OpenWriter(d, []);
      && Settled(d) && Anchored(d) && w.dir == d && w.phase == Idle && OnActive(w) && w.activeSize == 0
      && w.nextTxid == 1 && w.acked == [] && w.durable == []
  {
    hide OpenWriter, Parse;
    var d := [NewSegment(1)];
    NewIsSettled();
    OpenSettled(d, []);
    NothingParsed();
    DirRecsSplit(d);
    NothingScanned(Front(d));
    assert Newest(0, []) == 0;
  }

  lemma HoledOpens(r: Rec)
    requires r.txid == 1
    ensures var d := Holed(r); var w := OpenWriter(d, []);
      w.phase == Idle && OnActive(w) && w.activeSize == 0 && w.nextTxid == 2 && w.acked == [r] && w.durable == []
  {
    hide OpenWriter, Frame, Newest, Settled;
    HoledParts(r);
    OpenSettled(Holed(r), []);
    NewestOfOne(r);
  }

  lemma FirstAnchored(w: Writer, acts: seq<Action>)
    requires acts != [] && Enabled(w, acts[0]) && acts[0].Restart? && RunAnchored(w, acts)
    ensures Anchored(acts[0].survivor)
  {
    hide Enabled, Apply, Anchored;
  }

  /**
   From an anchored directory, a run whose one restart is not anchored: the power loss that
   follows leaves the second record without the first.
   */
  lemma HoledRunLosesFirst(r: Rec, s: Rec) returns (x: Writer, e: Dir)
    requires r.txid == 1 && s.txid == 2
    ensures var d := [NewSegment(1)];
      && Settled(d) && Anchored(d) && Runs(OpenWriter(d, []), HoledRun(r, s), x)
      && RunWithinLimit(OpenWriter(d, []), HoledRun(r, s)) && !RunAnchored(OpenWriter(d, []), HoledRun(r, s))
    ensures CrashTo(x.dir, e) && ScanDir(Listed(e)).error.None? && Found(e) == [s] && Attempted(x) == [r, s]
  {
    hide Runs, RunWithinLimit, RunAnchored, Frame, OpenWriter, Settled, CrashTo, ScanDir, Listed, Found, Appended, Rotated,
      AppendSteps, Holed, Newest, DirRecs, NextId, Anchored, Enabled;
    NewOpens();
    HoledOpens(r);
    FrameLength(r);
    FrameLength(s);
    var w0 := OpenWriter([NewSegment(1)], []);
    var a1 := AppendSteps(r.kind, r.key, r.payload, |Frame(r)|, Written);
    AppendedRuns(w0, r);
    AppendedFirst(w0, r);
    var w1 := Appended(w0, r);
    var a2 := [RotateSync(true), RotateCreate(Created), RotateEnter(false)];
    HaltedRotate(w1, r);
    var w2 := Rotated(w1, HALTED);
    var a3 := [Restart(Holed(r))];
    HoledRestart(w2, r);
    var w3 := OpenWriter(Holed(r), []);
    var a4 := AppendSteps(s.kind, s.key, s.payload, |Frame(s)|, Written);
    AppendedRuns(w3, s);
    x := Appended(w3, s);
    e := [Seg(2, Frame(s), 0, false)];
    HoleLosesFirst(r, s);
    RunsConcat(w0, a1, w1, a2, w2);
    RunsConcat(w0, a1 + a2, w2, a3, w3);
    RunsConcat(w0, a1 + a2 + a3, w3, a4, x);
    LimitConcat(w0, a1, w1, a2);
    LimitConcat(w0, a1 + a2, w2, a3);
    LimitConcat(w0, a1 + a2 + a3, w3, a4);
    if RunAnchored(w0, HoledRun(r, s)) {
      assert HoledRun(r, s) == (a1 + a2) + (a3 + a4);
      AnchoredRest(w0, a1 + a2, w2, a3 + a4);
      FirstAnchored(w2, a3 + a4);
    }
  }
}
