/** What a recovery scan returns, when it fails, and how its counts add up. */
module ScanFacts {
  import opened Bytes
  import opened Format
  import opened Recovery
  import opened Segment
  import opened Scan

  predicate AllClean(d: Dir) {
    forall i :: 0 <= i < |d| ==> Clean(d[i].bytes)
  }

  /** Every segment but the last is clean, and the last has at worst a recoverable tail. */
  predicate Openable(d: Dir) {
    d != [] ==> AllClean(Front(d)) && !Parse(Last(d).bytes).stop.Structural?
  }

  /** The scan of a directory all of whose segments are clean. */
  function CleanScan(d: Dir): ScanState {
    ScanState(DirRecords(d), |DirRecs(d)|, |d|, Newest(0, DirRecs(d)), 0, 0,
              if d == [] then None else Some((Last(d).id, |Last(d).bytes|)))
  }

  lemma {:induction false} NewestConcat(t: U64, a: seq<Rec>, b: seq<Rec>)
    ensures Newest(Newest(t, a), b) == Newest(t, a + b)
    decreases |b|
  {
    if b == [] {
      assert a + b == a;
    } else {
      NewestConcat(t, a, b[..|b| - 1]);
      assert (a + b)[..|a + b| - 1] == a + b[..|b| - 1];
    }
  }

  /** Appending one more segment to a clean scan. */
  lemma CleanScanStep(d: Dir, k: nat)
    requires k < |d|
    ensures var b := d[k].bytes; var p := Parse(b);
      var o := CleanScan(d[..k]);
      var t := Taking(o.(files := o.files + 1), d[k].id, p.recs);
      && t.records == DirRecords(d[..k + 1]) && t.replayed == |DirRecs(d[..k + 1])|
      && t.files == k + 1 && t.lastTxid == Newest(0, DirRecs(d[..k + 1]))
      && t.tailTruncated == 0 && t.tailBytes == 0
  {
    hide Parse, Newest, Place;
    var e := d[..k + 1];
    assert Front(e) == d[..k] && Last(e) == d[k];
    NewestConcat(0, DirRecs(d[..k]), Parse(d[k].bytes).recs);
  }

  lemma CleanVerdict(d: Dir, k: nat)
    requires k < |d|
    ensures var o := CleanScan(d[..k]);
      var r := AfterSegment(o.(files := o.files + 1), d[k].id, d[k].bytes, k == |d| - 1);
      if Clean(d[k].bytes) then r == ScanResult(CleanScan(d[..k + 1]), None)
      else k < |d| - 1 ==> r.error.Some?
  {
    hide Parse, Newest, Taking, DirRecords, DirRecs;
    CleanScanStep(d, k);
    assert Last(d[..k + 1]) == d[k];
  }

  lemma NothingScanned(d: Dir)
    requires d == []
    ensures CleanScan(d) == NOTHING_SCANNED && DirRecords(d) == [] && DirRecs(d) == []
  {
  }

  /** Up to the last segment, the scan goes through exactly as long as the segments are clean. */
  lemma {:induction false} ScanOfPrefix(d: Dir, k: nat)
    requires k < |d| || (k == |d| && AllClean(d))
    ensures if AllClean(d[..k]) then ScanUpTo(d, k) == ScanResult(CleanScan(d[..k]), None)
            else ScanUpTo(d, k).error.Some?
  {
    hide AfterSegment, Clean, DirRecords, DirRecs, Newest;
    if k == 0 {
      NothingScanned(d[..0]);
    } else {
      ScanOfPrefix(d, k - 1);
      assert AllClean(d[..k]) <==> AllClean(d[..k - 1]) && Clean(d[k - 1].bytes) by {
        assert d[..k] == d[..k - 1] + [d[k - 1]];
      }
      hide CleanScan;
      CleanVerdict(d, k - 1);
    }
  }

  /** Opening fails exactly on damage to a sealed segment or a structural error in the last one. */
  lemma ScanSucceedsIff(d: Dir)
    ensures ScanDir(d).error.None? <==> Openable(d)
  {
    hide Parse, Newest, Taking, DirRecords, DirRecs, CleanScan;
    if d != [] {
      ScanOfPrefix(d, |d| - 1);
    }
  }

  /** The records, counts and tail verdict of a successful scan. */
  lemma ScanGives(d: Dir)
    requires Openable(d) && d != []
    ensures var p := Parse(Last(d).bytes);
      ScanDir(d) == ScanResult(ScanState(
        DirRecords(d), |DirRecs(d)|, |d|, Newest(0, DirRecs(d)),
        if p.stop.AtEnd? then 0 else 1, |Last(d).bytes| - p.end, Some((Last(d).id, p.end))), None)
  {
    hide Parse, Newest, Taking, DirRecords, DirRecs;
    var k := |d| - 1;
    ScanOfPrefix(d, k);
    CleanScanStep(d, k);
    assert d[..k + 1] == d && d[..k] == Front(d);
  }

  lemma DirRecsSplit(d: Dir)
    requires d != []
    ensures DirRecs(d) == DirRecs(Front(d)) + Parse(Last(d).bytes).recs
  {
    hide Parse;
  }

  lemma {:induction false} SameRecs(a: Dir, b: Dir)
    requires |a| == |b| && forall i :: 0 <= i < |a| ==> a[i].bytes == b[i].bytes
    ensures DirRecs(a) == DirRecs(b)
    decreases |a|
  {
    hide Parse;
    if a != [] {
      SameRecs(Front(a), Front(b));
    }
  }

  /** A listing recognises every segment as long as the ids are below the limit. */
  lemma {:induction false} ListedAll(d: Dir)
    requires forall i :: 0 <= i < |d| ==> d[i].id < ID_LIMIT
    ensures Listed(d) == d
    decreases |d|
  {
    hide ParseSegmentFilename, SegmentName;
    if d != [] {
      ListedAll(Front(d));
      ParseOfName(Last(d).id);
    }
  }

  lemma OrderedFront(d: Dir)
    requires d != [] && Ordered(d)
    ensures Ordered(Front(d)) && d == Front(d) + [Last(d)]
  {
  }

  lemma OrderedSnoc(d: Dir, f: Dir)
    requires d != [] && Ordered(d) && Ordered(f) && forall s <- f :: s in Front(d)
    ensures Ordered(f + [Last(d)])
  {
    forall i | 0 <= i < |f|
      ensures f[i].id < Last(d).id
    {
      assert f[i] in Front(d);
    }
  }

  /** What it recognises, in order, are the segments with ids below 10^8. */
  lemma {:induction false} ListedIff(d: Dir)
    requires Ordered(d)
    ensures forall s: Seg :: s in Listed(d) <==> s in d && s.id < 100_000_000
    ensures Ordered(Listed(d))
    decreases |d|
  {
    hide ParseSegmentFilename, SegmentName, Ordered;
    if d != [] {
      var f, s := Listed(Front(d)), Last(d);
      OrderedFront(d);
      ListedIff(Front(d));
      ParseOfName(s.id);
      assert Listed(d) == if s.id < ID_LIMIT then f + [s] else f;
      hide Listed;
      OrderedSnoc(d, f);
    }
  }

  lemma OrderedBelow(d: Dir)
    requires d != [] && Ordered(d)
    ensures forall i :: 0 <= i < |d| ==> d[i].id <= Last(d).id
  {
  }

  // ------------------------------------------------------------------ accounting

  function TotalBytes(d: Dir): nat
    decreases |d|
  {
    if d == [] then 0 else TotalBytes(Front(d)) + |Last(d).bytes|
  }

  function TotalLen(rs: seq<Record>): nat
    decreases |rs|
  {
    if rs == [] then 0 else TotalLen(rs[..|rs| - 1]) + rs[|rs| - 1].len
  }

  lemma {:induction false} TotalLenConcat(a: seq<Record>, b: seq<Record>)
    ensures TotalLen(a + b) == TotalLen(a) + TotalLen(b)
    decreases |b|
  {
    if b == [] {
      assert a + b == a;
    } else {
      TotalLenConcat(a, b[..|b| - 1]);
      assert (a + b)[..|a + b| - 1] == a + b[..|b| - 1];
    }
  }

  lemma {:induction false} TotalLenOfPlace(recs: seq<Rec>, id: U32, offset: nat)
    ensures TotalLen(Place(recs, id, offset)) == |Frames(recs)|
    decreases |recs|
  {
    hide Frame;
    if recs != [] {
      var n := |Frame(recs[0])|;
      var first := [Record(recs[0], id, offset, n)];
      assert Place(recs, id, offset) == first + Place(recs[1..], id, offset + n);
      assert |Frames(recs)| == n + |Frames(recs[1..])|;
      assert TotalLen(first) == TotalLen(first[..0]) + n == n;
      hide Place, Frames, TotalLen;
      TotalLenOfPlace(recs[1..], id, offset + n);
      TotalLenConcat(first, Place(recs[1..], id, offset + n));
    }
  }

  lemma {:induction false} TotalLenOfClean(d: Dir)
    requires AllClean(d)
    ensures TotalLen(DirRecords(d)) == TotalBytes(d)
    decreases |d|
  {
    hide Parse, Place, Frames;
    if d != [] {
      TotalLenOfClean(Front(d));
      ParsedAreFrames(Last(d).bytes);
      TotalLenOfPlace(Parse(Last(d).bytes).recs, Last(d).id, 0);
      TotalLenConcat(DirRecords(Front(d)), Place(Parse(Last(d).bytes).recs, Last(d).id, 0));
      assert Last(d).bytes[..|Last(d).bytes|] == Last(d).bytes;
    }
  }

  lemma {:induction false} StopsAtEnd(b: seq<Byte>)
    ensures Parse(b).stop.AtEnd? <==> Parse(b).end == |b|
    decreases |b|
  {
    hide DecodeNext;
    if b != [] && DecodeNext(b, 0).Ok? && DecodeNext(b, 0).value.Decoded? {
      var r, n := DecodeNext(b, 0).value.rec, DecodeNext(b, 0).value.bytesConsumed;
      DecodedIsFrame(b, 0, r, n);
      StopsAtEnd(b[n..]);
    }
  }

  function Strip(rs: seq<Record>): seq<Rec>
    decreases |rs|
  {
    if rs == [] then [] else Strip(rs[..|rs| - 1]) + [rs[|rs| - 1].rec]
  }

  lemma {:induction false} StripConcat(a: seq<Record>, b: seq<Record>)
    ensures Strip(a + b) == Strip(a) + Strip(b)
    decreases |b|
  {
    if b == [] {
      assert a + b == a;
    } else {
      StripConcat(a, b[..|b| - 1]);
      assert (a + b)[..|a + b| - 1] == a + b[..|b| - 1];
    }
  }

  lemma {:induction false} StripOfPlace(recs: seq<Rec>, id: U32, offset: nat)
    ensures Strip(Place(recs, id, offset)) == recs
    decreases |recs|
  {
    hide Frame;
    if recs != [] {
      var n := |Frame(recs[0])|;
      var first := [Record(recs[0], id, offset, n)];
      StripOfPlace(recs[1..], id, offset + n);
      StripConcat(first, Place(recs[1..], id, offset + n));
      assert Strip(first) == Strip(first[..0]) + [recs[0]];
    }
  }

  lemma {:induction false} RecordsMatchRecs(d: Dir)
    ensures Strip(DirRecords(d)) == DirRecs(d) && |DirRecords(d)| == |DirRecs(d)|
    decreases |d|
  {
    hide Parse;
    if d != [] {
      RecordsMatchRecs(Front(d));
      var recs := Parse(Last(d).bytes).recs;
      StripOfPlace(recs, Last(d).id, 0);
      StripConcat(DirRecords(Front(d)), Place(recs, Last(d).id, 0));
    }
  }

  /** Every byte on disk is either part of a returned record or counted as discarded. */
  lemma ScanAccounts(d: Dir)
    requires ScanDir(d).error.None?
    ensures var s := ScanDir(d).state;
      && TotalLen(s.records) + s.tailBytes == TotalBytes(d)
      && s.replayed == |s.records| && s.files == |d|
      && s.tailTruncated <= 1 && (s.tailTruncated == 1 <==> s.tailBytes > 0)
  {
    hide Parse, Place, Frames, Newest, TotalLen, Taking;
    ScanSucceedsIff(d);
    RecordsMatchRecs(d);
    if d == [] {
      assert TotalLen([]) == 0 && DirRecords(d) == [] && DirRecs(d) == [] by { TotalLenOfClean([]); }
      assert ScanDir(d) == ScanResult(NOTHING_SCANNED, None);
    } else {
      ScanGives(d);
      var b := Last(d).bytes;
      var p := Parse(b);
      TotalLenOfClean(Front(d));
      ParsedAreFrames(b);
      TotalLenOfPlace(p.recs, Last(d).id, 0);
      TotalLenConcat(DirRecords(Front(d)), Place(p.recs, Last(d).id, 0));
      StopsAtEnd(b);
    }
  }

  // ------------------------------------------------------------------ damage

  lemma StopsAtDamage(recs: seq<Rec>, rest: seq<Byte>)
    requires rest != []
    requires DecodeNext(rest, 0).Ok? ==> !DecodeNext(rest, 0).value.Decoded?
    ensures Parse(Frames(recs) + rest) == Parsed(recs, |Frames(recs)|, Verdict(DecodeNext(rest, 0)))
  {
    hide DecodeNext, Frames;
    ParseFrames(recs, rest);
    assert recs + [] == recs;
  }

  /** What a scan says of the first segment that is more than frames: which error, and where. */
  lemma FirstDamage(d: Dir, k: nat, recs: seq<Rec>, rest: seq<Byte>)
    requires k < |d| && AllClean(d[..k]) && d[k].bytes == Frames(recs) + rest && rest != []
    requires DecodeNext(rest, 0).Ok? ==> !DecodeNext(rest, 0).value.Decoded?
    ensures var scan, id, at := ScanDir(d), d[k].id, |Frames(recs)|;
      match DecodeNext(rest, 0)
      case Err(e) => scan.error == Some(StructuralAt(id, at, e))
      case Ok(bad) =>
        if k < |d| - 1 then scan.error == Some(if bad.Truncated? then TornSealed(id, at) else CrcSealed(id, at))
        else
          && scan.error.None? && Strip(scan.state.records) == DirRecs(d[..k]) + recs
          && scan.state.tailTruncated == 1 && scan.state.tailBytes == |rest| && scan.state.logicalEnd == Some((id, at))
  {
    hide Parse, DecodeNext, Frames, Taking, DirRecords, DirRecs, Newest, Strip, ScanUpTo;
    StopsAtDamage(recs, rest);
    assert d[..k + 1] == d[..k] + [d[k]];
    ScanOfPrefix(d, k);
    ScanUpToNone(d);
    ScanUpToNext(d, k);
    if ScanUpTo(d, k + 1).error.Some? {
      StaysFailed(d, k + 1, |d|);
    } else {
      assert d == d[..k + 1] && Front(d) == d[..k];
      ScanGives(d);
      RecordsMatchRecs(d);
      DirRecsSplit(d);
    }
  }

  // ------------------------------------------------------------------ where the records stand

  function Lookup(d: Dir, id: U32): Option<seq<Byte>>
    decreases |d|
  {
    if d == [] then None
    else if Last(d).id == id then Some(Last(d).bytes)
    else Lookup(Front(d), id)
  }

  lemma {:induction false} LookupAt(d: Dir, i: nat)
    requires Ordered(d) && i < |d|
    ensures Lookup(d, d[i].id) == Some(d[i].bytes)
    decreases |d|
  {
    if i < |d| - 1 {
      LookupAt(Front(d), i);
    }
  }

  lemma {:induction false} LookupFinds(d: Dir, id: U32)
    requires Lookup(d, id).Some?
    ensures exists i :: 0 <= i < |d| && d[i].id == id && Lookup(d, id) == Some(d[i].bytes)
    decreases |d|
  {
    if Last(d).id != id {
      LookupFinds(Front(d), id);
    }
  }

  /** The frame of the record stands in its segment where the record says. */
  predicate Placed(d: Dir, r: Record) {
    && Lookup(d, r.segment).Some?
    && r.len == |Frame(r.rec)|
    && StartsAt(Lookup(d, r.segment).value, r.offset, Frame(r.rec))
  }

  lemma {:induction false} PlaceAt(recs: seq<Rec>, id: U32, offset: nat, i: nat)
    requires i < |recs|
    ensures Place(recs, id, offset)[i] == Record(recs[i], id, offset + |Frames(recs[..i])|, |Frame(recs[i])|)
    decreases |recs|
  {
    hide Frame;
    if i == 0 {
      assert recs[..0] == [];
    } else {
      PlaceAt(recs[1..], id, offset + |Frame(recs[0])|, i - 1);
      assert recs[..i][1..] == recs[1..][..i - 1];
    }
  }

  lemma FrameInFrames(recs: seq<Rec>, i: nat)
    requires i < |recs|
    ensures |Frames(recs[..i])| + |Frame(recs[i])| == |Frames(recs[..i + 1])|
    ensures StartsAt(Frames(recs), |Frames(recs[..i])|, Frame(recs[i]))
  {
    hide Frame, Frames;
    FramesSnoc(recs[..i], recs[i]);
    FramesConcat(recs[..i + 1], recs[i + 1..]);
    assert recs[..i + 1] == recs[..i] + [recs[i]] && recs == recs[..i + 1] + recs[i + 1..];
    var a, f, c := Frames(recs[..i]), Frame(recs[i]), Frames(recs[i + 1..]);
    assert Frames(recs) == (a + f) + c;
    assert ((a + f) + c)[|a|..|a| + |f|] == f;
  }

  lemma StartsAtGrows(a: seq<Byte>, b: seq<Byte>, offset: nat, f: seq<Byte>)
    requires a <= b && StartsAt(a, offset, f)
    ensures StartsAt(b, offset, f)
  {
    assert b[offset..offset + |f|] == a[offset..offset + |f|];
  }

  lemma PlacedInSegment(d: Dir, i: nat)
    requires Ordered(d) && i < |d|
    ensures forall r <- Place(Parse(d[i].bytes).recs, d[i].id, 0) :: Placed(d, r)
  {
    hide Frame, Parse, Place, Frames, StartsAt;
    var b := d[i].bytes;
    var recs := Parse(b).recs;
    LookupAt(d, i);
    ParsedAreFrames(b);
    var rs := Place(recs, d[i].id, 0);
    forall j | 0 <= j < |recs|
      ensures Placed(d, rs[j])
    {
      PlaceAt(recs, d[i].id, 0, j);
      FrameInFrames(recs, j);
      StartsAtGrows(Frames(recs), b, |Frames(recs[..j])|, Frame(recs[j]));
    }
  }

  /** Every record of a directory stands where it says. */
  lemma {:induction false} AllPlaced(d: Dir, k: nat)
    requires Ordered(d) && k <= |d|
    ensures forall r <- DirRecords(d[..k]) :: Placed(d, r)
    decreases k
  {
    hide Placed, Parse, Place;
    if k > 0 {
      assert Front(d[..k]) == d[..k - 1] && Last(d[..k]) == d[k - 1];
      AllPlaced(d, k - 1);
      PlacedInSegment(d, k - 1);
    }
  }

  lemma RecordsPlaced(d: Dir)
    requires Ordered(d)
    ensures forall r <- DirRecords(d) :: Placed(d, r)
  {
    hide Placed, DirRecords, Ordered;
    assert d[..|d|] == d;
    AllPlaced(d, |d|);
  }

  /** Consecutive records touch, or the later one opens a later segment. */
  predicate Follows(a: Record, b: Record) {
    (a.segment == b.segment && b.offset == a.offset + a.len) || (a.segment < b.segment && b.offset == 0)
  }

  predicate Tiled(rs: seq<Record>) {
    && (rs != [] ==> rs[0].offset == 0)
    && (forall i :: 0 < i < |rs| ==> Follows(rs[i - 1], rs[i]))
  }

  lemma FramesOfNone(recs: seq<Rec>)
    requires recs == []
    ensures Frames(recs) == []
  {
  }

  lemma PlaceTiled(recs: seq<Rec>, id: U32)
    ensures Tiled(Place(recs, id, 0))
    ensures forall i :: 0 <= i < |recs| ==> Place(recs, id, 0)[i].segment == id
  {
    hide Frame, Frames, Place;
    forall i | 0 <= i < |recs|
      ensures Place(recs, id, 0)[i] == Record(recs[i], id, |Frames(recs[..i])|, |Frame(recs[i])|)
      ensures i + 1 < |recs| ==> |Frames(recs[..i])| + |Frame(recs[i])| == |Frames(recs[..i + 1])|
    {
      PlaceAt(recs, id, 0, i);
      FrameInFrames(recs, i);
    }
    if recs != [] {
      FramesOfNone(recs[..0]);
    }
  }

  /** The records of a scan tile each segment from its start, segments in ascending order. */
  lemma {:induction false} DirRecordsTiled(d: Dir)
    requires Ordered(d)
    ensures Tiled(DirRecords(d))
    ensures forall r <- DirRecords(d) :: r.segment <= (if d == [] then 0 else Last(d).id)
    decreases |d|
  {
    hide Parse, Place;
    if d != [] {
      DirRecordsTiled(Front(d));
      PlaceTiled(Parse(Last(d).bytes).recs, Last(d).id);
      var a, b := DirRecords(Front(d)), Place(Parse(Last(d).bytes).recs, Last(d).id, 0);
      assert DirRecords(d) == a + b;
      forall i | 0 < i < |a + b|
        ensures Follows((a + b)[i - 1], (a + b)[i])
      {
        if i == |a| {
          assert a[i - 1] in a;
        } else if i > |a| {
          assert Follows(b[i - |a| - 1], b[i - |a|]);
        }
      }
    }
  }
}
