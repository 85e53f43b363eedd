/** The writer only ever appends: to its last segment, and segments to its directory. */
module Growth {
  import opened Bytes
  import opened Format
  import opened Recovery
  import opened Scan
  import opened ScanFacts
  import opened Writer

  /** Segments stay in place; all but the last of the earlier directory keep their bytes. */
  predicate Grown(a: Dir, d: Dir) {
    && |a| <= |d|
    && (forall i :: 0 <= i < |a| ==> a[i].id == d[i].id && a[i].bytes <= d[i].bytes)
    && (forall i :: 0 <= i < |a| - 1 ==> a[i].bytes == d[i].bytes)
  }

  lemma GrownTransitive(a: Dir, b: Dir, c: Dir)
    requires Grown(a, b) && Grown(b, c)
    ensures Grown(a, c)
  {
  }

  lemma SameSegments(d: Dir, e: Dir)
    requires d != [] && |e| >= |d| && e[..|d| - 1] == Front(d)
    requires e[|d| - 1].id == Last(d).id && Last(d).bytes <= e[|d| - 1].bytes
    ensures Grown(d, e)
  {
    assert forall i :: 0 <= i < |d| - 1 ==> e[i] == e[..|d| - 1][i] == Front(d)[i] == d[i];
  }

  lemma EntriesGrow(d: Dir)
    ensures Grown(d, SyncEntries(d))
  {
  }

  lemma SyncGrows(d: Dir)
    requires d != []
    ensures Grown(d, SyncLast(d))
  {
    SameSegments(d, SyncLast(d));
  }

  lemma ExtendGrows(d: Dir, b: seq<Byte>)
    requires d != []
    ensures Grown(d, Extend(d, b)) && Extend(d, b) != []
  {
    SameSegments(d, Extend(d, b));
  }

  lemma SegmentGrows(d: Dir, s: Seg)
    ensures Grown(d, d + [s])
  {
  }

  lemma NothingGrows(d: Dir)
    ensures Grown(d, d)
  {
  }

  lemma StepGrows(w: Writer, a: Action)
    requires Enabled(w, a) && !a.Restart? && w.dir != []
    ensures Grown(w.dir, Apply(w, a).dir)
  {
    hide Grown, Frame, NextId, OpenWriter, CrashTo, Settled, SyncEntries, SyncLast, Extend;
    var d := w.dir;
    SegmentGrows(d, NewSegment(if NextId(d).Ok? then NextId(d).value else 0));
    NothingGrows(d);
    match a
    case WriteBytes(n) =>
      var p := w.phase.pending;
      ExtendGrows(d, Frame(p.rec)[p.written..p.written + n]);
    case FsyncFile(_) => SyncGrows(d);
    case RotateSync(_) => SyncGrows(d);
    case FsyncEntries(_) => EntriesGrow(d);
    case RotateEnter(_) => EntriesGrow(d);
    case _ =>
  }

  /** A record in place stays in place. */
  lemma PlacedGrows(d: Dir, e: Dir, r: Record)
    requires Grown(d, e) && Ordered(e) && Placed(d, r)
    ensures Placed(e, r)
  {
    hide Frame, StartsAt, Lookup;
    LookupFinds(d, r.segment);
    var i :| 0 <= i < |d| && d[i].id == r.segment && Lookup(d, r.segment) == Some(d[i].bytes);
    LookupAt(e, i);
    StartsAtGrows(d[i].bytes, e[i].bytes, r.offset, Frame(r.rec));
  }

  lemma PlaceOne(rec: Rec, id: U32, offset: nat)
    ensures Place([rec], id, offset) == [Record(rec, id, offset, |Frame(rec)|)]
  {
    hide Frame;
  }

  lemma DirRecordsSplit(d: Dir)
    requires d != []
    ensures DirRecords(d) == DirRecords(Front(d)) + Place(Parse(Last(d).bytes).recs, Last(d).id, 0)
  {
    hide Parse, Place;
  }

  /** Appending a frame to a clean segment adds its record, at the end of the bytes. */
  lemma AppendPlaces(d: Dir, rec: Rec)
    requires d != [] && Clean(Last(d).bytes)
    ensures DirRecords(Extend(d, Frame(rec)))
         == DirRecords(d) + [Record(rec, Last(d).id, |Last(d).bytes|, |Frame(rec)|)]
  {
    hide Frame, Frames, Parse, DirRecords;
    var b, e := Last(d).bytes, Extend(d, Frame(rec));
    var recs := Parse(b).recs;
    DirRecordsSplit(d);
    DirRecordsSplit(e);
    ParsedAreFrames(b);
    assert b[..|b|] == b;
    FramesSnoc(recs, rec);
    FramesParse(recs + [rec]);
    hide Place;
    PlaceConcat(recs, [rec], Last(d).id, 0);
    PlaceOne(rec, Last(d).id, |b|);
  }
}
