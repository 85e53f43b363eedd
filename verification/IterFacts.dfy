/** The lazy iterator and the eager scan are the same scan, on every directory. */
module IterFacts {
  import opened Bytes
  import opened Format
  import opened Recovery
  import opened Scan
  import opened ScanFacts
  import opened RecordIter

  /** The scan state of the segments before idx, with segment idx opened. */
  function Opened(v: Dir, idx: nat): ScanState
    requires idx < |v|
  {
    var o := ScanUpTo(v, idx).state;
    o.(files := o.files + 1)
  }

  /**
   The cursor s, run over the segments v, has yielded exactly the records y, the last of them
   being the records got of the current segment.
   */
  predicate Reached(s: IterState, v: Dir, y: seq<Record>, got: seq<Rec>) {
    && !s.done && s.Wf() && s.ids == Ids(v) && s.idx <= |v|
    && ScanUpTo(v, s.idx).error.None?
    && if s.loaded then
         && s.buf == v[s.idx].bytes && s.id == v[s.idx].id && AtFrame(s.buf, s.offset, got)
         && var o := Taking(Opened(v, s.idx), s.id, got); y == o.records && s.report == o.Report()
       else
         var o := ScanUpTo(v, s.idx).state; y == o.records && s.report == o.Report()
  }

  /** The cursor has ended as the eager scan of v ends: same records, same report, same error. */
  predicate Finished(s: IterState, v: Dir, y: seq<Record>, error: Option<ScanError>) {
    && s.done
    && var r := ScanDir(v); y == r.state.records && s.report == r.state.Report() && error == r.error
  }

  lemma NewIterReached(v: Dir)
    ensures Reached(NewIter(Ids(v)), v, [], [])
  {
  }

  lemma LoadReached(s: IterState, d: Dir, v: Dir, y: seq<Record>, got: seq<Rec>) returns (l: IterState, now: seq<Rec>)
    requires Reached(s, v, y, got) && s.idx < |v|
    requires !s.loaded ==> Lookup(d, v[s.idx].id) == Some(v[s.idx].bytes)
    ensures Load(s, d) == Ok(l) && l.loaded && l.idx == s.idx && Reached(l, v, y, now)
    ensures s.loaded ==> l == s && now == got
  {
    hide ScanUpTo, AtFrame, Taking, Lookup;
    if s.loaded {
      l, now := s, got;
    } else {
      l, now := Load(s, d).value, [];
      AtFirstFrame(l.buf);
      TakingNothing(Opened(v, s.idx), l.id);
    }
  }

  /** What a turn does, seen from the eager scan. */
  predicate TurnMeans(v: Dir, y: seq<Record>, t: IterState, o: Option<Item>, got: seq<Rec>) {
    match o
    case None => Reached(t, v, y, got)
    case Some(Got(r)) => Reached(t, v, y + [r], got)
    case Some(End) => Finished(t, v, y, None)
    case Some(Failed(e)) => Finished(t, v, y, Some(e))
  }

  lemma TurnAtEnd(s: IterState, d: Dir, v: Dir, y: seq<Record>, got: seq<Rec>)
    requires Reached(s, v, y, got) && s.idx == |v|
    ensures var (t, o) := Turn(s, d); TurnMeans(v, y, t, o, got)
  {
    hide ScanUpTo, AtFrame, Taking;
  }

  lemma TurnYields(l: IterState, v: Dir, y: seq<Record>, got: seq<Rec>, rec: Rec, n: nat)
    requires Reached(l, v, y, got) && l.loaded && l.offset < |l.buf|
    requires DecodeNext(l.buf, l.offset) == Ok(Decoded(rec, n))
    ensures var report := l.report.(lastTxid := if rec.txid > l.report.lastTxid then rec.txid else l.report.lastTxid,
                                    replayed := l.report.replayed + 1);
      Reached(l.(offset := l.offset + n, report := report), v, y + [Record(rec, l.id, l.offset, n)], got + [rec])
  {
    hide ScanUpTo, AtFrame, Taking, DecodeNext, Frame, Frames;
    FrameTaken(l.buf, l.offset, got, rec, n);
    TakingStep(Opened(v, l.idx), l.id, got, rec);
  }

  lemma TurnStops(l: IterState, v: Dir, y: seq<Record>, got: seq<Rec>)
    requires Reached(l, v, y, got) && l.loaded
    requires l.offset < |l.buf| ==> DecodeNext(l.buf, l.offset).Ok? ==> !DecodeNext(l.buf, l.offset).value.Decoded?
    ensures var (t, r) := TryNextInSegment(l);
      match r
      case Ok(o) => o == None && Reached(t.(idx := t.idx + 1, loaded := false, buf := []), v, y, [])
      case Err(e) => Finished(t.(done := true), v, y, Some(e))
  {
    hide ScanUpTo, AtFrame, Taking, DecodeNext, Frames, AfterSegment;
    var k := l.idx;
    SegmentEnds(Opened(v, k), v[k], k == |v| - 1, l.offset, got);
    ScanUpToNext(v, k);
    if ScanUpTo(v, k + 1).error.Some? {
      StaysFailed(v, k + 1, |v|);
    }
  }

  lemma TurnOfLoaded(s: IterState, d: Dir, l: IterState)
    requires s.Wf() && s.idx < |s.ids| && Load(s, d) == Ok(l)
    ensures var (t, r) := TryNextInSegment(l);
      Turn(s, d) == match r
        case Ok(Some(rec)) => (t.(report := t.report.(replayed := t.report.replayed + 1)), Some(Got(rec)))
        case Ok(None) => (t.(idx := t.idx + 1, loaded := false, buf := []), None)
        case Err(e) => (t.(done := true), Some(Failed(e)))
  {
    hide Load, TryNextInSegment;
  }

  lemma TryNextDecoded(l: IterState, rec: Rec, n: nat)
    requires l.Wf() && l.loaded && l.offset < |l.buf| && DecodeNext(l.buf, l.offset) == Ok(Decoded(rec, n))
    ensures TryNextInSegment(l) == (
      l.(offset := l.offset + n,
         report := l.report.(lastTxid := if rec.txid > l.report.lastTxid then rec.txid else l.report.lastTxid)),
      Ok(Some(Record(rec, l.id, l.offset, n))))
  {
    hide DecodeNext;
  }

  /** Every turn of the cursor keeps it in step with the eager scan of the same segments. */
  lemma TurnKeepsStep(s: IterState, d: Dir, v: Dir, y: seq<Record>, got: seq<Rec>) returns (now: seq<Rec>)
    requires Reached(s, v, y, got)
    requires s.idx < |v| && !s.loaded ==> Lookup(d, v[s.idx].id) == Some(v[s.idx].bytes)
    ensures var (t, o) := Turn(s, d); TurnMeans(v, y, t, o, now)
  {
    hide ScanUpTo, AtFrame, Taking, DecodeNext, Lookup, Turn, Load, TryNextInSegment, Finished;
    if s.idx == |v| {
      TurnAtEnd(s, d, v, y, got);
      now := got;
    } else {
      var l, before := LoadReached(s, d, v, y, got);
      TurnOfLoaded(s, d, l);
      if l.offset < |l.buf| && DecodeNext(l.buf, l.offset).Ok? && DecodeNext(l.buf, l.offset).value.Decoded? {
        var rec, n := DecodeNext(l.buf, l.offset).value.rec, DecodeNext(l.buf, l.offset).value.bytesConsumed;
        TryNextDecoded(l, rec, n);
        TurnYields(l, v, y, before, rec, n);
        now := before + [rec];
      } else {
        TurnStops(l, v, y, before);
        now := [];
      }
    }
  }

  // ------------------------------------------------------------------ draining

  datatype Drained = Drained(records: seq<Record>, error: Option<ScanError>, iter: IterState)

  /** How much of the segment at hand is still to be decoded. */
  function Unread(s: IterState, d: Dir): nat
    requires s.Wf()
  {
    if s.loaded then |s.buf| - s.offset
    else if s.idx < |s.ids| && Lookup(d, s.ids[s.idx]).Some? then |Lookup(d, s.ids[s.idx]).value| + 1
    else 0
  }

  /** What a call to next does, seen from the eager scan; it makes progress as long as it yields. */
  lemma {:induction false} NextKeepsStep(s: IterState, d: Dir, y: seq<Record>, got: seq<Rec>) returns (now: seq<Rec>)
    requires Ordered(d) && Reached(s, d, y, got)
    ensures var (t, item) := NextItem(s, d);
      && TurnMeans(d, y, t, Some(item), now)
      && (item.Got? ==> t.Wf() && s.idx <= t.idx <= |s.ids| && t.ids == s.ids
                        && (t.idx == s.idx ==> Unread(t, d) < Unread(s, d)))
    decreases |s.ids| - s.idx
  {
    hide Turn, NextItem, Finished, ScanUpTo, AtFrame, Taking, Lookup;
    if s.idx < |d| {
      LookupAt(d, s.idx);
    }
    now := TurnKeepsStep(s, d, d, y, got);
    TurnKeepsWf(s, d);
    NextUnfolds(s, d);
    var (t, o) := Turn(s, d);
    if o.None? {
      now := NextKeepsStep(t, d, y, now);
    }
  }

  /** Calling next until it yields None or an error. */
  function Drain(s: IterState, d: Dir): (r: Drained)
    requires s.Wf() && !s.done
    ensures r.iter.Wf()
    decreases |s.ids| - s.idx, Unread(s, d)
  {
    TurnKeepsWf(s, d);
    var (t, o) := Turn(s, d);
    match o
    case None => Drain(t, d)
    case Some(Got(r)) => var rest := Drain(t, d); Drained([r] + rest.records, rest.error, rest.iter)
    case Some(End) => Drained([], None, t)
    case Some(Failed(e)) => Drained([], Some(e), t)
  }

  lemma DrainUnfolds(s: IterState, d: Dir)
    requires s.Wf() && !s.done
    ensures var (t, o) := Turn(s, d);
      && (o.Some? && !o.value.Got? ==> Drain(s, d) == Drained([], if o.value.Failed? then Some(o.value.error) else None, t))
      && (o.None? ==> t.Wf() && !t.done && Drain(s, d) == Drain(t, d))
      && (o.Some? && o.value.Got? ==> t.Wf() && !t.done && var rest := Drain(t, d);
          Drain(s, d) == Drained([o.value.record] + rest.records, rest.error, rest.iter))
  {
    hide Turn;
    TurnKeepsWf(s, d);
    var (t, o) := Turn(s, d);
    if o.Some? {
      match o.value
      case End => assert o == Some(End);
      case Got(r) => assert o == Some(Got(r));
      case Failed(e) => assert o == Some(Failed(e));
    }
  }

  /** From any point a cursor can reach, draining completes the eager scan. */
  lemma {:induction false} DrainCompletes(s: IterState, v: Dir, y: seq<Record>, got: seq<Rec>)
    requires Ordered(v) && Reached(s, v, y, got)
    ensures var r := Drain(s, v); Finished(r.iter, v, y + r.records, r.error)
    decreases |s.ids| - s.idx, Unread(s, v)
  {
    hide Turn, Finished, Lookup, Drain, ScanUpTo, AtFrame, Taking, Opened;
    if s.idx < |v| {
      LookupAt(v, s.idx);
    }
    var now := TurnKeepsStep(s, v, v, y, got);
    TurnKeepsWf(s, v);
    DrainUnfolds(s, v);
    var (t, o) := Turn(s, v);
    if o.None? {
      DrainCompletes(t, v, y, now);
    } else if o.value.Got? {
      var r := o.value.record;
      DrainCompletes(t, v, y + [r], now);
      assert (y + [r]) + Drain(t, v).records == y + ([r] + Drain(t, v).records);
    } else {
      assert y + [] == y;
    }
  }

  /**
   Scanner equivalence: over unchanging segments, draining a fresh iterator gives the records
   and the report of the eager scan. When the scan fails, the iterator yields exactly the
   records decoded before the failure, then that error, and after that None forever.
   */
  lemma IteratorEqualsScan(d: Dir)
    requires Ordered(d)
    ensures var r := Drain(NewIter(Ids(d)), d);
      && r.records == ScanDir(d).state.records
      && r.error == ScanDir(d).error
      && r.iter.report == ScanDir(d).state.Report()
      && r.iter.done && forall later: Dir :: NextItem(r.iter, later) == (r.iter, End)
  {
    NewIterReached(d);
    DrainCompletes(NewIter(Ids(d)), d, [], []);
    var r := Drain(NewIter(Ids(d)), d);
    hide Drain, ScanDir;
    assert [] + r.records == r.records;
  }
}
