/**
 The lazy record iterator: a cursor over a snapshot of segment ids that reads one segment
 file at a time, whenever it gets there. The functions describe single steps of the cursor
 on its state; the class takes those steps in place.
 */
module RecordIter {
  import opened Bytes
  import opened Format
  import opened Segment
  import opened Scan
  import opened ScanFacts
  import opened Listing

  /** The directory as the file system holds it: other handles may change it. */
  class Directory {
    var segs: Dir
    /** What else it holds. */
    const others: seq<DirEntry>

    constructor (segs: Dir, others: seq<DirEntry>)
      ensures this.segs == segs && this.others == others
    {
      this.segs, this.others := segs, others;
    }

    method List() returns (ids: seq<U32>)
      requires Splits(segs, others)
      ensures ids == Ids(segs)
    {
      ids := ListSegmentIds(Entries(segs) + others);
      ListingGivesIds(segs, others, ids);
    }
  }

  datatype IterState = IterState(
    ids: seq<U32>, idx: nat, buf: seq<Byte>, offset: nat, id: U32, loaded: bool, report: ScanState, done: bool) {

    predicate Wf() {
      loaded ==> idx < |ids| && offset <= |buf|
    }
  }

  function NewIter(ids: seq<U32>): IterState {
    IterState(ids, 0, [], 0, 0, false, NOTHING_SCANNED, false)
  }

  /** What a call to next yields. */
  datatype Item = End | Got(record: Record) | Failed(error: ScanError)

  function Load(s: IterState, d: Dir): (r: Result<IterState, ScanError>)
    requires s.Wf() && s.idx < |s.ids|
    ensures r.Ok? ==> r.value.Wf() && r.value.loaded
  {
    if s.loaded then Ok(s)
    else
      var id := s.ids[s.idx];
      match Lookup(d, id)
      case None => Err(Missing(id))
      case Some(b) => Ok(s.(buf := b, id := id, offset := 0, loaded := true,
                            report := s.report.(files := s.report.files + 1)))
  }

  /** One decoding step in the current segment; None when the segment is exhausted. */
  function TryNextInSegment(s: IterState): (IterState, Result<Option<Record>, ScanError>)
    requires s.Wf() && s.loaded
  {
    var isLast := s.idx + 1 == |s.ids|;
    var ended := s.(report := s.report.(logicalEnd := Some((s.id, s.offset))));
    var torn := s.(report := s.report.(tailTruncated := s.report.tailTruncated + 1,
                                       tailBytes := s.report.tailBytes + (|s.buf| - s.offset),
                                       logicalEnd := Some((s.id, s.offset))));
    if s.offset == |s.buf| then (ended, Ok(None))
    else match DecodeNext(s.buf, s.offset)
      case Ok(Decoded(rec, n)) =>
        (s.(offset := s.offset + n,
            report := s.report.(lastTxid := if rec.txid > s.report.lastTxid then rec.txid else s.report.lastTxid)),
         Ok(Some(Record(rec, s.id, s.offset, n))))
      case Ok(Truncated(_, _)) =>
        if isLast then (torn, Ok(None)) else (s, Err(TornSealed(s.id, s.offset)))
      case Ok(CrcMismatch(_)) =>
        if isLast then (torn, Ok(None)) else (s, Err(CrcSealed(s.id, s.offset)))
      case Err(e) => (s, Err(StructuralAt(s.id, s.offset, e)))
  }

  /** One turn of the loop inside next: None means that the loop goes round again. */
  function Turn(s: IterState, d: Dir): (IterState, Option<Item>)
    requires s.Wf()
  {
    if s.idx >= |s.ids| then (s.(done := true), Some(End))
    else match Load(s, d)
      case Err(e) => (s.(done := true), Some(Failed(e)))
      case Ok(l) =>
        var (t, r) := TryNextInSegment(l);
        match r
        case Ok(Some(rec)) => (t.(report := t.report.(replayed := t.report.replayed + 1)), Some(Got(rec)))
        case Ok(None) => (t.(idx := t.idx + 1, loaded := false, buf := []), None)
        case Err(e) => (t.(done := true), Some(Failed(e)))
  }

  lemma TurnKeepsWf(s: IterState, d: Dir)
    requires s.Wf() && !s.done
    ensures var (t, o) := Turn(s, d);
      && t.Wf() && t.ids == s.ids && s.idx <= t.idx
      && (t.done <==> o.Some? && !o.value.Got?)
      && (o.None? ==> t.idx == s.idx + 1 <= |s.ids| && !t.loaded)
      && (o == Some(End) ==> s.idx >= |s.ids|)
      && (o.Some? && o.value.Got? ==> (
          && t.loaded && t.idx == s.idx
          && if s.loaded then t.buf == s.buf && s.offset < t.offset
             else Lookup(d, s.ids[s.idx]) == Some(t.buf)))
  {
    hide Frame, DecodeNext, Lookup;
    if s.idx < |s.ids| && Load(s, d).Ok? {
      var l := Load(s, d).value;
      if l.offset < |l.buf| && DecodeNext(l.buf, l.offset).Ok? && DecodeNext(l.buf, l.offset).value.Decoded? {
        var v := DecodeNext(l.buf, l.offset).value;
        DecodedIsFrame(l.buf, l.offset, v.rec, v.bytesConsumed);
      }
    }
  }

  /** A whole call to next. */
  function NextItem(s: IterState, d: Dir): (IterState, Item)
    requires s.Wf()
    decreases |s.ids| - s.idx
  {
    if s.done then (s, End)
    else
      TurnKeepsWf(s, d);
      var (t, o) := Turn(s, d);
      if o.Some? then (t, o.value) else NextItem(t, d)
  }

  lemma NextUnfolds(s: IterState, d: Dir)
    requires s.Wf()
    ensures s.done ==> NextItem(s, d) == (s, End)
    ensures !s.done ==> var (t, o) := Turn(s, d);
      t.Wf() && NextItem(s, d) == if o.Some? then (t, o.value) else NextItem(t, d)
    ensures NextItem(s, d).0.Wf()
    decreases |s.ids| - s.idx
  {
    hide Turn;
    if !s.done {
      TurnKeepsWf(s, d);
      var (t, o) := Turn(s, d);
      if o.None? {
        NextUnfolds(t, d);
      }
    }
  }

  /** The segment the iterator needs next: the first one of which it has not taken all it can. */
  predicate Needs(s: IterState, id: U32) {
    && s.Wf() && !s.done
    && if s.loaded then s.offset == |s.buf| && s.idx + 1 < |s.ids| && id == s.ids[s.idx + 1]
       else s.idx < |s.ids| && id == s.ids[s.idx]
  }

  /** If its file is gone by then, the iterator yields that error once, and then nothing, whatever becomes of the directory. */
  lemma MissingEndsIteration(s: IterState, d: Dir, id: U32)
    requires Needs(s, id) && forall seg <- d :: seg.id != id
    ensures var (t, item) := NextItem(s, d);
      item == Failed(Missing(id)) && t.Wf() && forall e: Dir :: NextItem(t, e) == (t, End)
  {
    hide DecodeNext, Lookup;
    if Lookup(d, id).Some? {
      LookupFinds(d, id);
    }
    NextUnfolds(s, d);
    if s.loaded {
      NextUnfolds(Turn(s, d).0, d);
    }
  }

  class RecordIter {
    const dir: Directory
    const ids: seq<U32>
    var curIdx: nat
    var curBuf: seq<Byte>
    var curOffset: nat
    var curId: U32
    var curLoaded: bool
    var report: ScanState
    var done: bool

    ghost function Abs(): IterState
      reads this
    {
      IterState(ids, curIdx, curBuf, curOffset, curId, curLoaded, report, done)
    }

    constructor (dir: Directory, ids: seq<U32>)
      ensures this.dir == dir && Abs() == NewIter(ids)
    {
      this.dir, this.ids := dir, ids;
      curIdx, curBuf, curOffset, curId, curLoaded := 0, [], 0, 0, false;
      report, done := NOTHING_SCANNED, false;
    }

    method EnsureLoaded() returns (error: Option<ScanError>)
      requires Abs().Wf() && curIdx < |ids|
      modifies this
      ensures match Load(old(Abs()), dir.segs)
        case Ok(s) => error == None && Abs() == s
        case Err(e) => error == Some(e) && Abs() == old(Abs())
    {
      if curLoaded {
        return None;
      }
      var id := ids[curIdx];
      var file := Lookup(dir.segs, id);
      if file.None? {
        return Some(Missing(id));
      }
      curBuf := file.value;
      curId := id;
      curOffset := 0;
      curLoaded := true;
      report := report.(files := report.files + 1);
      return None;
    }

    method NextInSegment() returns (r: Result<Option<Record>, ScanError>)
      requires Abs().Wf() && curLoaded
      modifies this
      ensures (Abs(), r) == TryNextInSegment(old(Abs()))
    {
      hide DecodeNext;
      var id, isLast, fileLen := curId, curIdx + 1 == |ids|, |curBuf|;
      if curOffset == fileLen {
        report := report.(logicalEnd := Some((id, curOffset)));
        return Ok(None);
      }
      var decoded := DecodeNext(curBuf, curOffset);
      if decoded.Ok? && decoded.value.Decoded? {
        var rec, n, offset := decoded.value.rec, decoded.value.bytesConsumed, curOffset;
        curOffset := curOffset + n;
        if rec.txid > report.lastTxid {
          report := report.(lastTxid := rec.txid);
        }
        return Ok(Some(Record(rec, id, offset, n)));
      } else if decoded.Ok? && isLast {
        var discarded := fileLen - curOffset;
        report := report.(tailTruncated := report.tailTruncated + 1,
                          tailBytes := report.tailBytes + discarded,
                          logicalEnd := Some((id, curOffset)));
        return Ok(None);
      } else if decoded.Ok? && decoded.value.Truncated? {
        return Err(TornSealed(id, curOffset));
      } else if decoded.Ok? {
        return Err(CrcSealed(id, curOffset));
      } else {
        return Err(StructuralAt(id, curOffset, decoded.error));
      }
    }

    method Next() returns (item: Item)
      requires Abs().Wf()
      modifies this
      ensures (Abs(), item) == NextItem(old(Abs()), dir.segs) && Abs().Wf()
    {
      hide NextItem, DecodeNext, Lookup, Load, TryNextInSegment, NewIter;
      NextUnfolds(Abs(), dir.segs);
      if done {
        return End;
      }
      while true
        invariant Abs().Wf() && !done
        invariant NextItem(Abs(), dir.segs) == NextItem(old(Abs()), dir.segs)
        decreases |ids| - curIdx
      {
        ghost var s := Abs();
        NextUnfolds(s, dir.segs);
        TurnKeepsWf(s, dir.segs);
        if curIdx >= |ids| {
          done := true;
          return End;
        }
        var error := EnsureLoaded();
        if error.Some? {
          done := true;
          return Failed(error.value);
        }
        var r := NextInSegment();
        if r.Err? {
          done := true;
          return Failed(r.error);
        }
        if r.value.Some? {
          report := report.(replayed := report.replayed + 1);
          return Got(r.value.value);
        }
        curIdx := curIdx + 1;
        curLoaded := false;
        curBuf := [];
      }
    }
  }
}
