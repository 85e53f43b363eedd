/**
 The directory of segment files, and the eager recovery scan over it.
 Reading a file is reading its bytes here; the other parts of a file record what a
 power loss may do to it.
 */
module Scan {
  import opened Bytes
  import opened Format
  import opened Recovery
  import opened Segment

  /**
   One segment file: its bytes, how many of them a completed sync covers, and whether its
   directory entry is durable.
   */
  datatype Seg = Seg(id: U32, bytes: seq<Byte>, synced: nat, entry: bool)

  /** A directory: its segment files in ascending order of id. */
  type Dir = seq<Seg>

  predicate Ordered(d: Dir) {
    forall i, j :: 0 <= i < j < |d| ==> d[i].id < d[j].id
  }

  /** The segments whose names the listing recognises. */
  function Listed(d: Dir): Dir
    decreases |d|
  {
    if d == [] then []
    else Listed(d[..|d| - 1]) + (if ParseSegmentFilename(SegmentName(d[|d| - 1].id)).Some? then [d[|d| - 1]] else [])
  }

  function Ids(d: Dir): seq<U32> {
    seq(|d|, i requires 0 <= i < |d| => d[i].id)
  }

  function Last(d: Dir): Seg
    requires d != []
  {
    d[|d| - 1]
  }

  function Front(d: Dir): Dir
    requires d != []
  {
    d[..|d| - 1]
  }

  // ------------------------------------------------------------------ records in place

  datatype RecordRef = RecordRef(segment: U32, offset: nat, len: nat)

  datatype Record = Record(rec: Rec, segment: U32, offset: nat, len: nat) {
    function Ref(): RecordRef { RecordRef(segment, offset, len) }
  }

  /** The records of a run of frames that starts at the given offset of a segment. */
  function Place(recs: seq<Rec>, segment: U32, offset: nat): (rs: seq<Record>)
    ensures |rs| == |recs|
    decreases |recs|
  {
    if recs == [] then []
    else
      var n := |Frame(recs[0])|;
      [Record(recs[0], segment, offset, n)] + Place(recs[1..], segment, offset + n)
  }

  /** All records of a directory, in scan order. */
  function DirRecords(d: Dir): seq<Record>
    decreases |d|
  {
    if d == [] then [] else DirRecords(Front(d)) + Place(Parse(Last(d).bytes).recs, Last(d).id, 0)
  }

  function DirRecs(d: Dir): seq<Rec>
    decreases |d|
  {
    if d == [] then [] else DirRecs(Front(d)) + Parse(Last(d).bytes).recs
  }

  // ------------------------------------------------------------------ what a scan reports

  datatype ScanState = ScanState(
    records: seq<Record>,
    replayed: nat,
    files: nat,
    lastTxid: U64,
    tailTruncated: nat,
    tailBytes: nat,
    logicalEnd: Option<(U32, nat)>) {

    /** The part that becomes the public report, without the records. */
    function Report(): ScanState { this.(records := []) }
  }

  const NOTHING_SCANNED := ScanState([], 0, 0, 0, 0, 0, None)

  datatype ScanError =
    | TornSealed(segment: U32, offset: nat)
    | CrcSealed(segment: U32, offset: nat)
    | StructuralAt(segment: U32, offset: nat, error: DecodeError)
    | Missing(segment: U32)

  datatype ScanResult = ScanResult(state: ScanState, error: Option<ScanError>)

  function Newest(txid: U64, recs: seq<Rec>): U64
    decreases |recs|
  {
    if recs == [] then txid
    else
      var t := recs[|recs| - 1].txid;
      var before := Newest(txid, recs[..|recs| - 1]);
      if t > before then t else before
  }

  /** The state after the given records of one segment have been taken. */
  function Taking(out: ScanState, id: U32, recs: seq<Rec>): ScanState {
    out.(records := out.records + Place(recs, id, 0), replayed := out.replayed + |recs|,
         lastTxid := Newest(out.lastTxid, recs))
  }

  function DiscardTail(out: ScanState, id: U32, end: nat, len: nat): ScanState
    requires end <= len
  {
    out.(tailTruncated := out.tailTruncated + 1, tailBytes := out.tailBytes + (len - end),
         logicalEnd := Some((id, end)))
  }

  /** What one segment adds to the scan: its parse, and the verdict on its tail. */
  function AfterSegment(out: ScanState, id: U32, b: seq<Byte>, isLast: bool): ScanResult {
    var p := Parse(b);
    var o := Taking(out, id, p.recs);
    match p.stop
    case AtEnd => ScanResult(o.(logicalEnd := Some((id, p.end))), None)
    case Torn =>
      if isLast then ScanResult(DiscardTail(o, id, p.end, |b|), None)
      else ScanResult(o, Some(TornSealed(id, p.end)))
    case BadCrc =>
      if isLast then ScanResult(DiscardTail(o, id, p.end, |b|), None)
      else ScanResult(o, Some(CrcSealed(id, p.end)))
    case Structural(e) => ScanResult(o, Some(StructuralAt(id, p.end, e)))
  }

  /** The scan after the first k segments; it stays where the first failure left it. */
  function ScanUpTo(d: Dir, k: nat): ScanResult
    requires k <= |d|
  {
    if k == 0 then ScanResult(NOTHING_SCANNED, None)
    else
      var r := ScanUpTo(d, k - 1);
      if r.error.Some? then r
      else AfterSegment(r.state.(files := r.state.files + 1), d[k - 1].id, d[k - 1].bytes, k == |d|)
  }

  function ScanDir(d: Dir): ScanResult {
    ScanUpTo(d, |d|)
  }

  // ------------------------------------------------------------------ the scanning loops

  /** Where the loop below stops, and with what it stops. */
  lemma SegmentEnds(before: ScanState, seg: Seg, isLast: bool, offset: nat, got: seq<Rec>)
    requires AtFrame(seg.bytes, offset, got)
    requires offset < |seg.bytes| ==> DecodeNext(seg.bytes, offset).Ok? ==> !DecodeNext(seg.bytes, offset).value.Decoded?
    ensures var r := AfterSegment(before, seg.id, seg.bytes, isLast);
      var o := Taking(before, seg.id, got);
      && offset <= |seg.bytes|
      && if offset == |seg.bytes| then r == ScanResult(o.(logicalEnd := Some((seg.id, offset))), None)
         else match DecodeNext(seg.bytes, offset)
           case Err(e) => r == ScanResult(o, Some(StructuralAt(seg.id, offset, e)))
           case Ok(bad) =>
             r == if isLast then ScanResult(o.(tailTruncated := o.tailTruncated + 1, tailBytes := o.tailBytes + (|seg.bytes| - offset),
                                  logicalEnd := Some((seg.id, offset))), None)
                  else ScanResult(o, Some(if bad.Truncated? then TornSealed(seg.id, offset) else CrcSealed(seg.id, offset)))
  {
    hide DecodeNext, Parse, Taking, AtFrame, Frames;
    FrameStops(seg.bytes, offset, got);
  }

  lemma TakingNothing(out: ScanState, id: U32)
    ensures Taking(out, id, []) == out
  {
  }

  lemma {:induction false} PlaceConcat(a: seq<Rec>, b: seq<Rec>, id: U32, offset: nat)
    ensures Place(a + b, id, offset) == Place(a, id, offset) + Place(b, id, offset + |Frames(a)|)
    decreases |a|
  {
    hide Frame;
    if a == [] {
      assert a + b == b;
    } else {
      var n := |Frame(a[0])|;
      assert (a + b)[1..] == a[1..] + b && |Frames(a)| == n + |Frames(a[1..])|;
      assert Place(a, id, offset) == [Record(a[0], id, offset, n)] + Place(a[1..], id, offset + n);
      assert Place(a + b, id, offset) == [Record(a[0], id, offset, n)] + Place(a[1..] + b, id, offset + n);
      hide Place, Frames;
      PlaceConcat(a[1..], b, id, offset + n);
    }
  }

  lemma TakingStep(out: ScanState, id: U32, got: seq<Rec>, rec: Rec)
    ensures var o := Taking(out, id, got);
      Taking(out, id, got + [rec]) == o.(
        records := o.records + [Record(rec, id, |Frames(got)|, |Frame(rec)|)], replayed := o.replayed + 1,
        lastTxid := if rec.txid > o.lastTxid then rec.txid else o.lastTxid)
  {
    hide Frame, Frames;
    PlaceConcat(got, [rec], id, 0);
    assert (got + [rec])[..|got|] == got;
    assert Place([rec], id, |Frames(got)|) == [Record(rec, id, |Frames(got)|, |Frame(rec)|)];
    hide Place;
  }

  method ScanSegment(seg: Seg, isLast: bool, before: ScanState) returns (r: ScanResult)
    ensures r == AfterSegment(before, seg.id, seg.bytes, isLast)
  {
    hide *;
    var buf, out := seg.bytes, before;
    var offset, fileLen := 0, |buf|;
    ghost var got: seq<Rec> := [];
    TakingNothing(before, seg.id);
    AtFirstFrame(buf);
    while true
      invariant offset <= fileLen == |buf| && AtFrame(buf, offset, got)
      invariant out == Taking(before, seg.id, got)
      decreases fileLen - offset
    {
      if offset == fileLen {
        SegmentEnds(before, seg, isLast, offset, got);
        out := out.(logicalEnd := Some((seg.id, offset)));
        return ScanResult(out, None);
      }
      var decoded := DecodeNext(buf, offset);
      if decoded.Ok? && decoded.value.Decoded? {
        var rec, n := decoded.value.rec, decoded.value.bytesConsumed;
        FrameTaken(buf, offset, got, rec, n);
        TakingStep(before, seg.id, got, rec);
        out := out.(records := out.records + [Record(rec, seg.id, offset, n)], replayed := out.replayed + 1,
                    lastTxid := if rec.txid > out.lastTxid then rec.txid else out.lastTxid);
        offset := offset + n;
        got := got + [rec];
      } else {
        SegmentEnds(before, seg, isLast, offset, got);
        if decoded.Ok? && isLast {
          var discarded := fileLen - offset;
          out := out.(tailTruncated := out.tailTruncated + 1, tailBytes := out.tailBytes + discarded,
                      logicalEnd := Some((seg.id, offset)));
          return ScanResult(out, None);
        } else if decoded.Ok? && decoded.value.Truncated? {
          return ScanResult(out, Some(TornSealed(seg.id, offset)));
        } else if decoded.Ok? {
          return ScanResult(out, Some(CrcSealed(seg.id, offset)));
        } else {
          return ScanResult(out, Some(StructuralAt(seg.id, offset, decoded.error)));
        }
      }
    }
  }

  lemma ScanUpToNone(d: Dir)
    ensures ScanUpTo(d, 0) == ScanResult(NOTHING_SCANNED, None)
    ensures ScanDir(d) == ScanUpTo(d, |d|)
  {
  }

  lemma ScanUpToNext(d: Dir, k: nat)
    requires k < |d| && ScanUpTo(d, k).error.None?
    ensures var out := ScanUpTo(d, k).state;
      ScanUpTo(d, k + 1) == AfterSegment(out.(files := out.files + 1), d[k].id, d[k].bytes, k == |d| - 1)
  {
    hide AfterSegment;
  }

  lemma {:induction false} StaysFailed(d: Dir, k: nat, m: nat)
    requires k <= m <= |d| && ScanUpTo(d, k).error.Some?
    ensures ScanUpTo(d, m) == ScanUpTo(d, k)
    decreases m - k
  {
    hide AfterSegment;
    if k < m {
      StaysFailed(d, k, m - 1);
    }
  }

  method ScanAll(d: Dir) returns (r: ScanResult)
    ensures r == ScanDir(d)
  {
    hide *;
    var out := NOTHING_SCANNED;
    ScanUpToNone(d);
    var lastIdx := |d| - 1;
    for i := 0 to |d|
      invariant ScanUpTo(d, i) == ScanResult(out, None)
    {
      out := out.(files := out.files + 1);
      var s := ScanSegment(d[i], i == lastIdx, out);
      ScanUpToNext(d, i);
      out := s.state;
      if s.error.Some? {
        StaysFailed(d, i + 1, |d|);
        return s;
      }
    }
    return ScanResult(out, None);
  }
}
