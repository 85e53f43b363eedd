/**
 The lock-free reader, run against a live writer. The reader takes a snapshot of segment ids,
 then reads each segment file whenever its iterator gets there, while the writer goes on taking
 its steps, byte by byte if need be.
 */
module Reader {
  import opened Bytes
  import opened Format
  import opened Recovery
  import opened Scan
  import opened ScanFacts
  import opened RecordIter
  import opened IterFacts
  import opened Writer
  import opened WriterInv
  import opened CrashSafety
  import opened Growth

  datatype ReaderError = NotADirectory

  /** The reader handle: nothing but the ids that were listed when it was opened. */
  datatype RecordLogReader = RecordLogReader(snapshotIds: seq<U32>) {
    static function Open(isDirectory: bool, d: Dir): (r: Result<RecordLogReader, ReaderError>)
      ensures r.Err? <==> !isDirectory
    {
      if isDirectory then Ok(RecordLogReader(Ids(Listed(d)))) else Err(NotADirectory)
    }

    function ScanIter(): IterState { NewIter(snapshotIds) }
  }

  /**
   An iteration in progress. start is the directory at the time of the snapshot and tail the
   bytes of the last snapshot segment once they have been read; y is what has been yielded.
   */
  datatype Session = Session(iter: IterState, y: seq<Record>, failed: Option<ScanError>, start: Dir, tail: Option<seq<Byte>>)

  datatype System = System(w: Writer, session: Option<Session>)

  datatype Event =
    | Write(action: Action)
    | Open
    | Read

  /** A writer may take any step, and it may be dropped and reopened in place; the power stays on. */
  predicate CanHappen(s: System, e: Event) {
    match e
    case Write(a) => Enabled(s.w, a) && WithinLimit(s.w, a) && (a.Restart? ==> a.survivor == s.w.dir)
    case Open => s.session.None?
    case Read => s.session.Some? && !s.session.value.iter.done && s.session.value.iter.Wf()
  }

  /** The iterator is about to read the last segment of its snapshot. */
  predicate AtTail(n: Session) {
    !n.iter.loaded && n.iter.idx + 1 == |n.start|
  }

  function Happen(s: System, e: Event): System
    requires CanHappen(s, e)
  {
    match e
    case Write(a) => s.(w := Apply(s.w, a))
    case Open =>
      var reader := RecordLogReader.Open(true, s.w.dir).value;
      s.(session := Some(Session(reader.ScanIter(), [], None, s.w.dir, None)))
    case Read =>
      var n := s.session.value;
      var (t, o) := Turn(n.iter, s.w.dir);
      s.(session := Some(n.(
        iter := t,
        y := if o.Some? && o.value.Got? then n.y + [o.value.record] else n.y,
        failed := if o.Some? && o.value.Failed? then Some(o.value.error) else n.failed,
        tail := if AtTail(n) then Lookup(s.w.dir, n.start[|n.start| - 1].id) else n.tail)))
  }

  predicate Happens(s: System, events: seq<Event>, t: System)
    decreases |events|
  {
    if events == [] then t == s
    else CanHappen(s, events[0]) && Happens(Happen(s, events[0]), events[1..], t)
  }

  // ------------------------------------------------------------------ what the reader sees

  /** The segments as the reader reads them: sealed ones as they are, the last one as it was when read. */
  function View(start: Dir, tail: seq<Byte>): Dir
    requires start != []
  {
    Front(start) + [Seg(Last(start).id, tail, 0, false)]
  }

  /** The bytes of the last snapshot segment: as read, or as they stand if not read yet. */
  function TailBytes(n: Session, d: Dir): seq<Byte>
    requires n.start != [] && |n.start| <= |d|
  {
    if n.tail.Some? then n.tail.value else d[|n.start| - 1].bytes
  }

  ghost predicate Reading(n: Session, w: Writer) {
    && n.start != [] && Grown(n.start, w.dir) && AllClean(Front(n.start))
    && n.failed.None?
    && var m := |n.start|;
       var tail := TailBytes(n, w.dir);
    && Last(n.start).bytes <= tail <= w.dir[m - 1].bytes
    && (n.tail.None? ==> !n.iter.done && (n.iter.idx < m - 1 || AtTail(n)))
    && (n.tail.Some? ==> n.iter.done || n.iter.idx >= m || (n.iter.idx == m - 1 && n.iter.loaded))
    && if n.iter.done then Finished(n.iter, View(n.start, tail), n.y, None)
       else exists got :: Reached(n.iter, View(n.start, tail), n.y, got)
  }

  ghost predicate SystemInv(s: System) {
    Inv(s.w) && (s.session.Some? ==> Reading(s.session.value, s.w))
  }

  lemma PrefixParse(full: seq<Rec>, b: seq<Byte>)
    requires b <= Frames(full)
    ensures var p := Parse(b); p.recs == full[..Whole(full, |b|)] && (p.stop.AtEnd? || p.stop.Torn?)
  {
    hide Parse, Frames, Whole;
    LongestValidPrefix(full, |b|);
    assert Frames(full)[..|b|] == b;
  }

  lemma PrefixParseGrows(full: seq<Rec>, b: seq<Byte>, c: seq<Byte>)
    requires b <= c <= Frames(full)
    ensures Parse(b).recs <= Parse(c).recs
  {
    hide Parse, Frames, Whole;
    PrefixParse(full, b);
    PrefixParse(full, c);
    WholeGrows(full, |b|, |c|);
  }

  /** Whatever the writer is doing, each of its segments is a prefix of a run of frames. */
  lemma SegmentIsPrefix(w: Writer, i: nat) returns (full: seq<Rec>)
    requires Inv(w) && i < |w.dir|
    ensures w.dir[i].bytes <= Frames(full)
  {
    hide Frames, Parse, Guaranteed, Full;
    var p := PendingOf(w.phase);
    if i == |w.dir| - 1 {
      HeldBytes(w.dir, w.acked, p);
      full := Full(w.dir, w.acked, p);
    } else {
      var b := w.dir[i].bytes;
      assert b == Front(w.dir)[i].bytes;
      ParsedAreFrames(b);
      full := Parse(b).recs;
      assert b[..|b|] == b;
    }
  }

  // ------------------------------------------------------------------ the tail that is not read yet

  lemma {:induction false} ScanUpToAgrees(v: Dir, u: Dir, k: nat)
    requires |v| == |u| && k <= |v| && v[..k] == u[..k]
    ensures ScanUpTo(v, k) == ScanUpTo(u, k)
    decreases k
  {
    hide AfterSegment;
    if k > 0 {
      assert v[k - 1] == v[..k][k - 1] == u[..k][k - 1] == u[k - 1];
      assert v[..k - 1] == v[..k][..k - 1] == u[..k - 1];
      ScanUpToAgrees(v, u, k - 1);
    }
  }

  /** As long as the last segment has not been read, its bytes do not matter to the iterator. */
  lemma ReachedAgrees(s: IterState, start: Dir, tail: seq<Byte>, now: seq<Byte>, y: seq<Record>, got: seq<Rec>)
    requires start != [] && Reached(s, View(start, tail), y, got)
    requires s.idx < |start| - 1 || (s.idx == |start| - 1 && !s.loaded)
    ensures Reached(s, View(start, now), y, got)
  {
    hide ScanUpTo, AtFrame, Taking;
    var v, u := View(start, tail), View(start, now);
    assert Ids(u) == Ids(v);
    assert v[..s.idx] == start[..s.idx] == u[..s.idx];
    ScanUpToAgrees(v, u, s.idx);
    if s.loaded {
      assert v[s.idx] == start[s.idx] == u[s.idx];
    }
  }

  // ------------------------------------------------------------------ what every event keeps

  lemma InvHasDirectory(w: Writer)
    requires Inv(w)
    ensures w.dir != []
  {
  }

  lemma WriteGrows(w: Writer, a: Action)
    requires Enabled(w, a) && w.dir != [] && (a.Restart? ==> a.survivor == w.dir)
    ensures Grown(w.dir, Apply(w, a).dir)
  {
    hide Enabled, ScanDir, Listed, Settled, CrashTo, Grown, NextId, Entered, Frame;
    if a.Restart? {
      NothingGrows(w.dir);
    } else {
      StepGrows(w, a);
    }
  }

  lemma WriteKeepsReading(s: System, a: Action)
    requires SystemInv(s) && CanHappen(s, Write(a))
    ensures SystemInv(Happen(s, Write(a)))
  {
    hide Inv, Enabled, Apply, Reached, Finished, AllClean, View, WithinLimit;
    StepKeeps(s.w, a);
    InvHasDirectory(s.w);
    WriteGrows(s.w, a);
    if s.session.Some? {
      var n, w, x := s.session.value, s.w, Apply(s.w, a);
      GrownTransitive(n.start, w.dir, x.dir);
      if !n.iter.done && n.tail.None? {
        var got :| Reached(n.iter, View(n.start, TailBytes(n, w.dir)), n.y, got);
        ReachedAgrees(n.iter, n.start, TailBytes(n, w.dir), TailBytes(n, x.dir), n.y, got);
      }
    }
  }

  lemma OpenKeepsReading(s: System)
    requires SystemInv(s) && CanHappen(s, Open)
    ensures SystemInv(Happen(s, Open))
  {
    hide Reached, Finished, Holds, Guaranteed, Listed, DirRecs, Parse;
    var d := s.w.dir;
    HoldsFacts(d, s.w.acked, PendingOf(s.w.phase));
    OrderedBelow(d);
    ListedAll(d);
    HeldRecovers(d, s.w.acked, PendingOf(s.w.phase));
    var v := View(d, Last(d).bytes);
    assert Ids(v) == Ids(d);
    NewIterReached(v);
    var n := Happen(s, Open).session.value;
    assert TailBytes(n, d) == Last(d).bytes;
    assert Reached(n.iter, v, [], []);
  }

  lemma ViewOpens(n: Session, w: Writer)
    requires Inv(w) && Reading(n, w)
    ensures ScanDir(View(n.start, TailBytes(n, w.dir))).error.None?
  {
    hide Reached, Finished, Inv, Parse, Frames, ScanDir;
    var m := |n.start|;
    var tail := TailBytes(n, w.dir);
    var full := SegmentIsPrefix(w, m - 1);
    PrefixParse(full, tail);
    ScanSucceedsIff(View(n.start, tail));
  }

  lemma ViewAt(start: Dir, tail: seq<Byte>, d: Dir, i: nat)
    requires start != [] && Grown(start, d) && i < |start| && (i == |start| - 1 ==> tail == d[i].bytes)
    ensures var v := View(start, tail); v[i].id == d[i].id && v[i].bytes == d[i].bytes
  {
    assert i < |start| - 1 ==> View(start, tail)[i] == Front(start)[i] == start[i];
  }

  lemma TailNotRead(n: Session, w: Writer)
    requires Reading(n, w) && !n.iter.done && n.iter.idx < |n.start| && !n.iter.loaded
    ensures n.start != [] && Grown(n.start, w.dir)
    ensures n.iter.idx == |n.start| - 1 ==> TailBytes(n, w.dir) == w.dir[|n.start| - 1].bytes
  {
    hide Reached, Finished, AllClean, View;
  }

  lemma InvOrders(w: Writer)
    requires Inv(w)
    ensures Ordered(w.dir)
  {
    hide Guaranteed, Ordered;
  }

  lemma TurnOfTail(n: Session, w: Writer)
    requires Inv(w) && Reading(n, w) && !n.iter.done && n.iter.Wf()
    requires n.iter.idx < |n.start| && !n.iter.loaded
    ensures var v := View(n.start, TailBytes(n, w.dir));
      Lookup(w.dir, v[n.iter.idx].id) == Some(v[n.iter.idx].bytes)
  {
    hide Reading, Inv, View, Lookup, Ordered, TailBytes;
    InvOrders(w);
    TailNotRead(n, w);
    ViewAt(n.start, TailBytes(n, w.dir), w.dir, n.iter.idx);
    LookupAt(w.dir, n.iter.idx);
  }

  lemma ReachedRange(s: IterState, v: Dir, y: seq<Record>, got: seq<Rec>)
    requires Reached(s, v, y, got)
    ensures s.idx <= |v| && s.ids == Ids(v) && s.Wf() && !s.done
  {
  }

  lemma FinishedError(s: IterState, v: Dir, y: seq<Record>, error: Option<ScanError>)
    requires Finished(s, v, y, error)
    ensures ScanDir(v).error == error && y == ScanDir(v).state.records
  {
  }

  lemma ReadKeepsReading(s: System)
    requires SystemInv(s) && CanHappen(s, Read)
    ensures SystemInv(Happen(s, Read))
  {
    hide Inv, Reached, Finished, AllClean, Turn, Lookup, ScanDir, Enabled, Apply, WithinLimit, Listed;
    var n, w := s.session.value, s.w;
    var m, tail := |n.start|, TailBytes(n, w.dir);
    var v := View(n.start, tail);
    var got :| Reached(n.iter, v, n.y, got);
    ReachedRange(n.iter, v, n.y, got);
    if n.iter.idx < m && !n.iter.loaded {
      TurnOfTail(n, w);
    }
    var now := TurnKeepsStep(n.iter, w.dir, v, n.y, got);
    TurnKeepsWf(n.iter, w.dir);
    ViewOpens(n, w);
    var (t, o) := Turn(n.iter, w.dir);
    var n' := Happen(s, Read).session.value;
    if o.Some? && o.value.Failed? {
      FinishedError(t, v, n.y, Some(o.value.error));
      assert false;
    }
    assert AtTail(n) ==> v[m - 1].id == n.start[m - 1].id && n'.tail == Some(tail);
    assert TailBytes(n', w.dir) == tail;
    if !t.done {
      assert Reached(t, v, n'.y, now);
    }
  }

  lemma {:induction false} EventsKeep(s: System, events: seq<Event>, t: System)
    requires SystemInv(s) && Happens(s, events, t)
    ensures SystemInv(t)
    decreases |events|
  {
    hide SystemInv, CanHappen, Happen;
    if events != [] {
      var e := events[0];
      match e
      case Write(a) => WriteKeepsReading(s, a); EventsKeep(Happen(s, e), events[1..], t);
      case Open => OpenKeepsReading(s); EventsKeep(Happen(s, e), events[1..], t);
      case Read => ReadKeepsReading(s); EventsKeep(Happen(s, e), events[1..], t);
    }
  }

  lemma WriterFinds(w: Writer)
    requires Inv(w)
    ensures DirRecs(w.dir) <= Attempted(w)
  {
    hide Holds, Guaranteed, DirRecs;
    HeldRecovers(w.dir, w.acked, PendingOf(w.phase));
  }

  lemma {:induction false} SameFront(a: Dir, d: Dir)
    requires a != [] && Grown(a, d)
    ensures DirRecs(Front(d[..|a|])) == DirRecs(Front(a))
  {
    SameRecs(Front(a), Front(d[..|a|]));
  }

  lemma {:induction false} DirRecsGrow(d: Dir, m: nat)
    requires m <= |d|
    ensures DirRecs(d[..m]) <= DirRecs(d)
    decreases |d| - m
  {
    hide Parse;
    if m == |d| {
      assert d[..m] == d;
    } else {
      DirRecsGrow(d, m + 1);
      assert Front(d[..m + 1]) == d[..m];
    }
  }

  lemma FinishedBounds(n: Session, w: Writer)
    requires Inv(w) && Reading(n, w) && n.iter.done
    ensures DirRecs(n.start) <= Strip(n.y) <= DirRecs(w.dir) <= Attempted(w)
    ensures Strip(n.y) == DirRecs(Front(n.start)) + Parse(TailBytes(n, w.dir)).recs
  {
    hide Inv, Reached, Finished, Parse, Frames, ScanDir, DirRecs, Strip;
    var m, tail := |n.start|, TailBytes(n, w.dir);
    var v := View(n.start, tail);
    ViewOpens(n, w);
    FinishedError(n.iter, v, n.y, None);
    ScanSucceedsIff(v);
    FoundIs(v);
    var full := SegmentIsPrefix(w, m - 1);
    PrefixParseGrows(full, Last(n.start).bytes, tail);
    PrefixParseGrows(full, tail, w.dir[m - 1].bytes);
    DirRecsSplit(n.start);
    DirRecsSplit(v);
    var e := w.dir[..m];
    DirRecsSplit(e);
    SameFront(n.start, w.dir);
    DirRecsGrow(w.dir, m);
    WriterFinds(w);
    var before := DirRecs(Front(n.start));
    PrefixConcat(before, Parse(Last(n.start).bytes).recs, Parse(tail).recs);
    PrefixConcat(before, Parse(tail).recs, Parse(w.dir[m - 1].bytes).recs);
  }

  /**
   A reader against a live writer. Whatever the interleaving of the writer's steps, partial frame
   writes, rotates and restarts in place included, with the reader's snapshot and reads, the reader never meets an
   error; and a consumed iteration has yielded all records that were complete when the snapshot
   was taken, followed by none or more later ones, in all a prefix of the writer's history.
   */
  lemma ReaderIsSafe(d: Dir, events: seq<Event>, t: System)
    requires d == [] || Settled(d)
    requires Happens(System(OpenWriter(d, []), None), events, t) && t.session.Some?
    ensures t.session.value.failed.None?
    ensures t.session.value.iter.done ==>
      DirRecs(t.session.value.start) <= Strip(t.session.value.y) <= DirRecs(t.w.dir) <= Attempted(t.w)
  {
    hide Inv, OpenWriter, Settled, Happens, DirRecs, Strip, Finished;
    StartKeeps(d);
    EventsKeep(System(OpenWriter(d, []), None), events, t);
    if t.session.value.iter.done {
      FinishedBounds(t.session.value, t.w);
    }
  }

  lemma SameHead(a: seq<Rec>, x: seq<Rec>, y: seq<Rec>)
    ensures a + x == a + y <==> x == y
  {
    assert (a + x)[|a|..] == x && (a + y)[|a|..] == y;
  }

  /**
   A consumed iteration stays within the records of its snapshot if and only if no whole frame
   reached the last snapshot segment between the snapshot and the load of that segment.
   */
  lemma StaysInSnapshotIff(n: Session, w: Writer)
    requires Inv(w) && Reading(n, w) && n.iter.done
    ensures Strip(n.y) == DirRecs(n.start) <==> Parse(TailBytes(n, w.dir)).recs == Parse(Last(n.start).bytes).recs
  {
    hide Inv, Reached, Finished, Parse, DirRecs, Strip, AllClean, View;
    FinishedBounds(n, w);
    DirRecsSplit(n.start);
    SameHead(DirRecs(Front(n.start)), Parse(TailBytes(n, w.dir)).recs, Parse(Last(n.start).bytes).recs);
  }

  // ------------------------------------------------------------------ past the snapshot

  const LATE := Rec(Raw, 1, [], [])

  /** A snapshot of an empty log, an append, and the three turns of the whole iteration. */
  function LateAppend(): seq<Event> {
    [Open, Write(BeginAppend(Raw, [], [])), Write(WriteBytes(28)), Read, Read, Read]
  }

  lemma {:induction false} HappensMore(s: System, events: seq<Event>, t: System, e: Event)
    requires Happens(s, events, t) && CanHappen(t, e)
    ensures Happens(s, events + [e], Happen(t, e))
    decreases |events|
  {
    hide CanHappen, Happen;
    if events == [] {
      assert events + [e] == [e] && [e][1..] == [];
      assert Happens(Happen(t, e), [], Happen(t, e));
    } else {
      HappensMore(Happen(s, events[0]), events[1..], t, e);
      assert (events + [e])[1..] == events[1..] + [e];
    }
  }

  lemma OneListed(d: Dir)
    requires d == [Seg(1, [], 0, true)]
    ensures Ids(Listed(d)) == [1]
  {
    hide Listed;
    ListedAll(d);
  }

  lemma FreshFacts()
    ensures var w := OpenWriter([], []);
      && w.dir == [Seg(1, [], 0, true)] && w.phase == Idle && OnActive(w) && w.nextTxid == 1
      && DirRecs(w.dir) == [] && Ids(Listed(w.dir)) == [1]
  {
    hide OpenWriter, DirRecs, Listed, Parse, Newest, Ordered, Settled, Anchored, Ids;
    FreshDirectory();
    FreshIsOpened([]);
    OpenSettled(OpenDir([]), []);
    FreshKeeps([]);
    OneListed(OpenDir([]));
  }

  /** The cursor loads the file and finds the record, then its end, and then nothing more. */
  lemma LateTurns(d: Dir, f: seq<Byte>)
    requires d == [Seg(1, f, 0, true)] && f == Frame(LATE)
    ensures var (t, o) := Turn(NewIter([1]), d);
      && o == Some(Got(Record(LATE, 1, 0, 28))) && t.Wf() && !t.done
      && var (u, p) := Turn(t, d);
      && p == None && u.Wf() && !u.done
      && var (v, q) := Turn(u, d); q == Some(End) && v.done
  {
    hide Frame, DecodeNext;
    FrameLength(LATE);
    assert f[0..28] == f;
    FrameDecodes(f, 0, LATE);
    LookupAt(d, 0);
  }

  lemma NothingHappens(s: System)
    ensures Happens(s, [], s)
  {
  }

  lemma LateWrites(w: Writer, w1: Writer, w2: Writer, n: Option<Session>)
    requires w.dir == [Seg(1, [], 0, true)] && w.phase == Idle && OnActive(w) && w.nextTxid == 1
    requires w1 == w.(phase := Appending(Pending(LATE, 0)))
    requires w2 == w1.(dir := [Seg(1, Frame(LATE), 0, true)], phase := Appending(Pending(LATE, 28)))
    ensures var begin, write := Write(BeginAppend(Raw, [], [])), Write(WriteBytes(28));
      && CanHappen(System(w, n), begin) && Happen(System(w, n), begin) == System(w1, n)
      && CanHappen(System(w1, n), write) && Happen(System(w1, n), write) == System(w2, n)
  {
    hide Frame;
    FrameLength(LATE);
    assert [] + Frame(LATE)[0..28] == Frame(LATE);
  }

  lemma SnapshotTaken(w: Writer) returns (s: System)
    requires Ids(Listed(w.dir)) == [1]
    ensures CanHappen(System(w, None), Open) && s == Happen(System(w, None), Open)
    ensures s == System(w, Some(Session(NewIter([1]), [], None, w.dir, None)))
  {
    hide Listed;
    s := Happen(System(w, None), Open);
  }

  lemma LateReads(s: System) returns (t: System)
    requires s.session == Some(Session(NewIter([1]), [], None, [Seg(1, [], 0, true)], None))
    requires s.w.dir == [Seg(1, Frame(LATE), 0, true)]
    ensures CanHappen(s, Read) && CanHappen(Happen(s, Read), Read) && CanHappen(Happen(Happen(s, Read), Read), Read)
    ensures t == Happen(Happen(Happen(s, Read), Read), Read) && t.session.Some?
    ensures var n := t.session.value; n.iter.done && n.start == s.session.value.start && Strip(n.y) == [LATE]
  {
    hide Frame, Turn, Lookup, Listed, Enabled, Apply, WithinLimit;
    LateTurns(s.w.dir, Frame(LATE));
    t := Happen(Happen(Happen(s, Read), Read), Read);
    var y := [Record(LATE, 1, 0, 28)];
    assert t.session.value.y == [] + y == y;
    assert Strip(y) == Strip(y[..0]) + [LATE];
  }

  /**
   A record appended after the snapshot was taken, and yielded: the whole iteration over a
   snapshot without records yields it.
   */
  lemma LateRecordIsYielded() returns (t: System)
    ensures Happens(System(OpenWriter([], []), None), LateAppend(), t) && t.session.Some?
    ensures var n := t.session.value; n.iter.done && DirRecs(n.start) == [] && Strip(n.y) == [LATE]
  {
    hide OpenWriter, Listed, DirRecs, Frame, Happens, Happen, CanHappen, Strip, Enabled, Apply, Lookup;
    FreshFacts();
    var w := OpenWriter([], []);
    var s0 := System(w, None);
    var s1 := SnapshotTaken(w);
    var w1 := w.(phase := Appending(Pending(LATE, 0)));
    var w2 := w1.(dir := [Seg(1, Frame(LATE), 0, true)], phase := Appending(Pending(LATE, 28)));
    LateWrites(w, w1, w2, s1.session);
    var s3 := s1.(w := w2);
    t := LateReads(s3);
    var e2, e3 := Write(BeginAppend(Raw, [], [])), Write(WriteBytes(28));
    NothingHappens(s0);
    HappensMore(s0, [], s0, Open);
    HappensMore(s0, [] + [Open], s1, e2);
    HappensMore(s0, [] + [Open] + [e2], s1.(w := w1), e3);
    HappensMore(s0, [] + [Open] + [e2] + [e3], s3, Read);
    HappensMore(s0, [] + [Open] + [e2] + [e3] + [Read], Happen(s3, Read), Read);
    HappensMore(s0, [] + [Open] + [e2] + [e3] + [Read] + [Read], Happen(Happen(s3, Read), Read), Read);
    assert [] + [Open] + [e2] + [e3] + [Read] + [Read] + [Read] == LateAppend();
  }
}
