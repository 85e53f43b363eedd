/**
 A handle opened over a torn tail. open sets its idea of the segment's size to the logical end,
 while appends go to the physical end of the file: the two differ by the torn bytes. This module
 says exactly what that costs.
 */
module Gap {
  import opened Bytes
  import opened Format
  import opened Recovery
  import opened Segment
  import opened Scan
  import opened ScanFacts
  import opened Writer
  import opened Operations
  import opened WriterInv
  import opened CrashSafety
  import opened FdPool
  import opened Keydir

  /** A directory that opens, whose segments before the last are synced, as every rotate leaves them. */
  predicate Mounted(d: Dir) {
    && Opens(d)
    && (forall i :: 0 <= i < |d| ==> d[i].synced <= |d[i].bytes|)
    && (forall i :: 0 <= i < |d| - 1 ==> d[i].synced == |d[i].bytes|)
  }

  /** What an open over d discards: the bytes after the last whole frame. */
  function TornBytes(d: Dir): seq<Byte>
    requires d != []
  {
    Last(d).bytes[Parse(Last(d).bytes).end..]
  }

  /** Bytes on disk after the end of the active segment as the handle sees it. */
  function GapOf(w: Writer): int
    requires w.dir != []
  {
    |Last(w.dir).bytes| - w.activeSize
  }

  lemma OpenMounted(d: Dir)
    requires d != [] && Opens(d)
    ensures var w := OpenWriter(d, []);
      && w.dir == d && w.phase == Idle && w.activeId == Last(d).id && w.activeSize == Parse(Last(d).bytes).end
      && w.acked == DirRecs(d) && w.nextTxid == TxidAfter(Newest(0, DirRecs(d))) && w.durable == []
      && GapOf(w) == |TornBytes(d)| == ScanDir(Listed(d)).state.tailBytes
    ensures (GapOf(OpenWriter(d, [])) == 0) <==> Clean(Last(d).bytes)
  {
    hide Parse, DirRecs, Newest, ScanDir, Listed, Opens;
    OpenResumes(d, []);
    StopsAtEnd(Last(d).bytes);
  }

  lemma CleanIsSettled(d: Dir)
    requires Mounted(d)
    ensures Clean(Last(d).bytes) <==> Settled(d)
  {
    hide Parse;
    assert Last(d) == d[|d| - 1] && forall i :: 0 <= i < |d| - 1 ==> d[i] == Front(d)[i];
  }

  /** Such a directory with a torn tail: one stray byte in the first segment. */
  lemma TornExample()
    ensures var d := [Seg(1, [0x44], 0, true)]; Mounted(d) && TornBytes(d) == [0x44]
  {
    var d := [Seg(1, [0x44], 0, true)];
    assert Parse([0x44]) == Parsed([], 0, Torn);
    assert AllClean(Front(d));
  }

  /**
   Gap conservation: an append moves the logical and the physical end alike, so the offset it
   returns is the place of the frame exactly when the gap is zero.
   */
  lemma AppendKeepsGap(w: Writer, rec: Rec)
    requires w.dir != []
    ensures var x := Appended(w, rec);
      && GapOf(x) == GapOf(w)
      && StartsAt(Last(x.dir).bytes, w.activeSize + GapOf(w), Frame(rec))
      && w.activeSize + GapOf(w) + |Frame(rec)| == |Last(x.dir).bytes|
  {
    hide Frame;
    var b := Last(w.dir).bytes;
    assert (b + Frame(rec))[|b|..|b| + |Frame(rec)|] == Frame(rec);
  }

  /** A rotate that goes through closes the gap of the handle, but not of the file. */
  lemma RotateClosesGap(w: Writer, io: RotateOutcome)
    requires w.phase == Idle && OnActive(w)
    ensures var x := Rotated(w, io);
      x.phase == Idle && x.activeId != w.activeId ==>
        && OnActive(x) && GapOf(x) == 0 && x.activeSize == 0
        && |x.dir| == |w.dir| + 1 && x.dir[|w.dir| - 1].bytes == Last(w.dir).bytes
  {
    hide NextId, SyncEntries;
    var x := Rotated(w, io);
    if x.phase == Idle && x.activeId != w.activeId {
      var grown := SyncLast(w.dir) + [NewSegment(x.activeId)];
      assert x.dir == SyncEntries(grown) && Last(grown) == NewSegment(x.activeId);
      assert grown[|w.dir| - 1] == Last(SyncLast(w.dir));
    }
  }

  // ------------------------------------------------------------------ what a gap costs

  lemma FrameStart(r: Rec)
    ensures var f := Frame(r);
      && f[0] == 0x44 && f[1] == 0x57 && f[2] == 0x41 && f[3] == 0x4C && f[4] == 1 && f[5] == 0
      && f[6] == r.kind.AsByte() && f[7] == 0
  {
    hide Crc32c.Crc;
    var h := HeaderOf(r.kind, r.txid, |r.key|, |r.payload|);
    HeaderSlices(r.kind, r.txid, |r.key|, |r.payload|);
    assert LE(1, 2) == [1] + LE(0, 1) == [1, 0];
    assert h[4] == h[4..6][0] && h[5] == h[4..6][1] && forall i :: 0 <= i < 4 ==> h[i] == h[0..4][i];
    assert forall i :: 0 <= i < 24 ==> Frame(r)[i] == h[i];
  }

  lemma Differs(g: seq<Byte>, f: seq<Byte>, i: nat)
    requires i < |f| <= |g| && g[i] != f[i]
    ensures !StartsAt(g, 0, f)
  {
    assert g[0..|f|][i] == g[i];
  }

  /** Behind torn bytes, a frame of a suitable type is never the next thing that is decoded. */
  lemma NotNext(t: seq<Byte>, r: Rec)
    requires t != [] && (|t| >= 7 ==> t[6] != r.kind.AsByte())
    ensures !StartsAt(t + Frame(r), 0, Frame(r))
  {
    hide Frame;
    FrameStart(r);
    var f := Frame(r);
    if |t| < 7 {
      assert (t + f)[|t|] == f[0] != f[|t|];
      Differs(t + f, f, |t|);
    } else {
      assert (t + f)[6] == t[6] != f[6];
      Differs(t + f, f, 6);
    }
  }

  /** Appending r and reopening: r is found behind the records recovered before. */
  predicate AppendIsFound(d: Dir, r: Rec)
    requires d != []
  {
    var e := Extend(d, Frame(r));
    Openable(e) && DirRecs(d) + [r] <= DirRecs(e)
  }

  lemma ParseWithTail(b: seq<Byte>, more: seq<Byte>)
    ensures Parse(b + more).recs == Parse(b).recs + Parse(b[Parse(b).end..] + more).recs
    ensures Parse(b + more).stop == Parse(b[Parse(b).end..] + more).stop
  {
    hide Parse, Frames;
    ParsedAreFrames(b);
    var p := Parse(b);
    ParseFrames(p.recs, b[p.end..] + more);
    assert b + more == Frames(p.recs) + (b[p.end..] + more) by { assert b == b[..p.end] + b[p.end..]; }
  }

  lemma ExtendedRecs(d: Dir, more: seq<Byte>)
    requires d != []
    ensures var t := Last(d).bytes[Parse(Last(d).bytes).end..];
      && DirRecs(Extend(d, more)) == DirRecs(d) + Parse(t + more).recs
      && Extend(d, more) != [] && Front(Extend(d, more)) == Front(d)
      && Parse(Last(Extend(d, more)).bytes).stop == Parse(t + more).stop
  {
    hide Parse, DirRecs;
    var e, b := Extend(d, more), Last(d).bytes;
    DirRecsSplit(d);
    DirRecsSplit(e);
    ParseWithTail(b, more);
    var t := b[Parse(b).end..];
    assert DirRecs(Front(d)) + (Parse(b).recs + Parse(t + more).recs)
        == (DirRecs(Front(d)) + Parse(b).recs) + Parse(t + more).recs;
  }

  lemma TornParses(d: Dir)
    requires d != []
    ensures Parse(TornBytes(d)).recs == [] && Parse(TornBytes(d)).stop == Parse(Last(d).bytes).stop
    ensures Opens(d) ==> !Parse(TornBytes(d)).stop.Structural?
    ensures TornBytes(d) == [] <==> Clean(Last(d).bytes)
  {
    hide Parse;
    var b, t := Last(d).bytes, TornBytes(d);
    ParseWithTail(b, []);
    StopsAtEnd(b);
    assert b + [] == b && t + [] == t;
  }

  lemma FirstRecord(b: seq<Byte>, r: Rec)
    requires Parse(b).recs != [] && Parse(b).recs[0] == r
    ensures StartsAt(b, 0, Frame(r))
  {
    hide DecodeNext, Frame;
    var d := DecodeNext(b, 0).value;
    assert Parse(b).recs[0] == d.rec;
    DecodedIsFrame(b, 0, d.rec, d.bytesConsumed);
  }

  /**
   Appending and reopening, exactly: with t the torn bytes and f the frame, the record is found if
   and only if t + f happens to start with f and what follows can be discarded as a tail.
   */
  lemma AppendFoundIff(d: Dir, r: Rec)
    requires d != [] && Opens(d)
    ensures var g, f := TornBytes(d) + Frame(r), Frame(r);
      AppendIsFound(d, r) <==> StartsAt(g, 0, f) && !Parse(g[|f|..]).stop.Structural?
  {
    hide DirRecs, Frame, Parse, Extend, Ordered;
    var f := Frame(r);
    var g := TornBytes(d) + f;
    ExtendedRecs(d, f);
    assert Openable(Extend(d, f)) <==> !Parse(g).stop.Structural?;
    if StartsAt(g, 0, f) {
      assert g == f + g[|f|..] && g[0..|f|] == f;
      ParseFrame(r, g[|f|..]);
    }
    if AppendIsFound(d, r) {
      assert DirRecs(d) + [r] <= DirRecs(d) + Parse(g).recs;
      assert (DirRecs(d) + Parse(g).recs)[|DirRecs(d)|] == (DirRecs(d) + [r])[|DirRecs(d)|] == r;
      FirstRecord(g, r);
    }
  }

  /**
   So over a clean tail every append is found, and over a torn one it is lost unless the torn
   bytes repeat through the whole frame, which a torn piece of another type never does.
   */
  lemma AppendLost(d: Dir, r: Rec)
    requires d != [] && Opens(d)
    ensures TornBytes(d) == [] ==> AppendIsFound(d, r)
    ensures TornBytes(d) != [] && !(Frame(r) <= TornBytes(d) + Frame(r)) ==> !AppendIsFound(d, r)
    ensures var t := TornBytes(d); t != [] && (|t| >= 7 ==> t[6] != r.kind.AsByte()) ==> !(Frame(r) <= t + Frame(r))
  {
    hide Opens, Frame, Parse, AppendIsFound, TornBytes;
    var t, f := TornBytes(d), Frame(r);
    AppendFoundIff(d, r);
    NothingParsed();
    if t == [] {
      assert t + f == f && f[0..|f|] == f && f[|f|..] == [];
    } else {
      assert StartsAt(t + f, 0, f) <==> f <= t + f by { assert (t + f)[0..|f|] == (t + f)[..|f|]; }
      if |t| >= 7 ==> t[6] != r.kind.AsByte() {
        NotNext(t, r);
      }
    }
  }

  lemma OpensAfterAppend(d: Dir, f: seq<Byte>)
    requires d != [] && Opens(d)
    ensures Openable(Extend(d, f)) <==> !Parse(TornBytes(d) + f).stop.Structural?
  {
    hide Parse, DirRecs, Extend, Ordered;
    ExtendedRecs(d, f);
  }

  /**
   When an append leaves the log openable, for every torn length: the bytes from the torn tail on
   must parse as a header, and if they go on to decode as a frame, what follows must be a tail
   that can be discarded.
   */
  lemma AppendOpensIff(d: Dir, r: Rec)
    requires d != [] && Opens(d)
    ensures var t := TornBytes(d); var g := t + Frame(r);
      Openable(Extend(d, Frame(r))) <==>
        match DecodeNext(g, 0)
        case Ok(Decoded(_, n)) => n <= |g| && !Parse(g[n..]).stop.Structural?
        case Ok(_) => true
        case Err(_) => false
  {
    hide Opens, Frame, DecodeNext, Extend, TornBytes, Openable, Frames;
    var g := TornBytes(d) + Frame(r);
    OpensAfterAppend(d, Frame(r));
    FrameLength(r);
    if DecodeNext(g, 0).Ok? && DecodeNext(g, 0).value.Decoded? {
      DecodedIsFrame(g, 0, DecodeNext(g, 0).value.rec, DecodeNext(g, 0).value.bytesConsumed);
    }
  }

  /** A header that the torn tail holds in full has been parsed before, so from there on only a decoded frame can do harm. */
  lemma LongTornTailParses(d: Dir, r: Rec)
    requires d != [] && Opens(d) && |TornBytes(d)| >= HEADER_LEN
    ensures DecodeNext(TornBytes(d) + Frame(r), 0).Ok?
  {
    hide Opens, Frame, Frames, FromLE, LE, Pow256, HeaderOf, DecodeNext, TornBytes, DecodeBody;
    var t := TornBytes(d);
    var g := t + Frame(r);
    TornParses(d);
    assert DecodeNext(t, 0).Ok?;
    var kind, txid, keyLen, payloadLen := ParsedHeader(t, 0);
    assert g[0..HEADER_LEN] == t[0..HEADER_LEN];
    HeaderParses(g, 0, kind, txid, keyLen, payloadLen);
    BodyIsOk(g, kind, txid, keyLen, payloadLen);
  }

  /** What the parser demands of a header: the first eight bytes, and the caps on the two lengths. */
  predicate HeaderFits(h: seq<Byte>)
    requires |h| == HEADER_LEN
  {
    && h[0..4] == MAGIC && FromLE(h[4..6]) == WIRE_VERSION && RecordType.FromByte(h[6]).Some? && h[7] == 0
    && FromLE(h[16..20]) <= MAX_KEY_LEN && FromLE(h[20..24]) <= MAX_PAYLOAD_LEN
  }

  /**
   Behind 8 to 23 torn bytes: the torn bytes supply the first eight bytes of the header, and the
   two lengths are read from the torn bytes and the first 16 bytes of the frame, which end with
   its txid. So neither its key nor its payload has a say.
   */
  lemma ShortTornTailParsesIff(d: Dir, r: Rec)
    requires d != [] && Opens(d) && 8 <= |TornBytes(d)| < HEADER_LEN
    ensures DecodeNext(TornBytes(d) + Frame(r), 0).Ok? <==> HeaderFits((TornBytes(d) + Frame(r)[..16])[..HEADER_LEN])
  {
    hide Opens, Frame, TornBytes, DecodeBody, FromLE;
    FrameLength(r);
    var t, f := TornBytes(d), Frame(r);
    var h := (t + f)[0..HEADER_LEN];
    assert h == (t + f[..16])[..HEADER_LEN];
    if HeaderFits(h) {
      hide LE, Pow256;
      LEInvertsFromLE(h[8..16]);
      Powers();
      BodyIsOk(t + f, RecordType.FromByte(h[6]).value, FromLE(h[8..16]), FromLE(h[16..20]), FromLE(h[20..24]));
    }
  }

  lemma MagicValue()
    ensures FromLE(MAGIC) > MAX_PAYLOAD_LEN && FromLE(MAGIC) > MAX_KEY_LEN
  {
    assert MAGIC[1..] == [0x57, 0x41, 0x4C] && MAGIC[1..][1..] == [0x41, 0x4C] && MAGIC[1..][1..][1..] == [0x4C];
    assert FromLE([0x4C]) == 0x4C + 256 * FromLE([0x4C][1..]) == 0x4C;
    assert FromLE(MAGIC[1..][1..]) == 0x41 + 256 * 0x4C;
    assert FromLE(MAGIC[1..]) == 0x57 + 256 * FromLE(MAGIC[1..][1..]);
  }

  lemma MagicAsLength(t: seq<Byte>, f: seq<Byte>)
    requires (|t| == 16 || |t| == 20) && |f| >= HEADER_LEN && f[..4] == MAGIC
    ensures Parse(t + f).stop.Structural?
  {
    hide DecodeBody, Frames;
    var h := (t + f)[0..HEADER_LEN];
    MagicValue();
    hide FromLE;
    if |t| == 16 {
      assert h[16..20] == f[..4];
    } else {
      assert h[20..24] == f[..4];
    }
    assert DecodeHeader(t + f, 0).Err?;
  }

  lemma NotTheVersion(v: seq<Byte>)
    requires |v| == 2 && (v[0] == 0x44 || v[0] == 0x57 || v[0] == 0x41 || v[1] == 0x44 || v[1] == 0x57 || v[1] == 0x41)
    ensures FromLE(v) != WIRE_VERSION
  {
    assert FromLE(v) == v[0] + 256 * FromLE(v[1..]) && FromLE(v[1..]) == v[1] + 256 * FromLE(v[1..][1..]);
  }

  lemma ShortPieceIsStructural(t: seq<Byte>, f: seq<Byte>)
    requires 0 < |t| < 8 && |f| >= HEADER_LEN && f[0] == 0x44 && f[1] == 0x57 && f[2] == 0x41
    ensures Parse(t + f).stop.Structural?
  {
    hide DecodeBody, Frames, FromLE;
    var h := (t + f)[0..HEADER_LEN];
    assert forall i :: |t| <= i < HEADER_LEN ==> h[i] == f[i - |t|];
    if |t| < 4 {
      assert h[0..4][3] == h[3] && h[0..4][2] == h[2];
      assert MAGIC[3] == 0x4C && MAGIC[2] == 0x41;
    } else if |t| < 6 {
      assert h[4..6][0] == h[4] && h[4..6][1] == h[5];
      NotTheVersion(h[4..6]);
    }
    assert DecodeHeader(t + f, 0).Err?;
  }

  /**
   Torn tails that make every later append fatal: those of one to seven bytes, and those of 16
   and 20 bytes, behind which the magic of the new frame is read as a length.
   */
  lemma TornTailBricks(d: Dir, r: Rec)
    requires d != [] && Opens(d) && var n := |TornBytes(d)|; 0 < n < 8 || n == 16 || n == 20
    ensures !Openable(Extend(d, Frame(r)))
  {
    hide Opens, Frame, Parse, Extend, TornBytes, Openable;
    var t := TornBytes(d);
    OpensAfterAppend(d, Frame(r));
    FrameStart(r);
    FrameLength(r);
    if |t| < 8 {
      ShortPieceIsStructural(t, Frame(r));
    } else {
      MagicAsLength(t, Frame(r));
    }
  }

  lemma SameBytesClean(a: Dir, b: Dir)
    requires |a| == |b| && forall i :: 0 <= i < |a| ==> a[i].bytes == b[i].bytes
    ensures AllClean(a) <==> AllClean(b)
  {
    hide Parse;
  }

  lemma FrontIsClean(d: Dir)
    requires d != [] && Opens(d)
    ensures AllClean(d) <==> Clean(Last(d).bytes)
  {
    hide Parse;
    assert Last(d) == d[|d| - 1] && forall i :: 0 <= i < |d| - 1 ==> d[i] == Front(d)[i];
  }

  lemma SyncShape(x: Dir)
    requires x != []
    ensures var y := SyncLast(x);
      && |y| == |x| && Front(y) == Front(x) && Last(y).id == Last(x).id && Last(y).bytes == Last(x).bytes
      && Last(y).synced == |Last(y).bytes| && y[|y| - 1] == Last(y)
      && forall i :: 0 <= i < |x| - 1 ==> y[i] == x[i]
  {
    var y := SyncLast(x);
    assert Front(y) == Front(x);
    assert forall i :: 0 <= i < |x| - 1 ==> y[i] == Front(y)[i] == Front(x)[i] == x[i];
  }

  lemma SyncEntriesOpens(y: Dir)
    requires y != []
    ensures Openable(SyncEntries(y)) <==> Openable(y)
  {
    hide Parse, DirRecs;
    EntriesShape(y);
    SameBytesClean(Front(y), Front(SyncEntries(y)));
  }

  /** A rotate that gets to create its segment leaves a log that opens exactly if the old segment had no torn tail. */
  lemma RotateTornIff(d: Dir, io: RotateOutcome)
    requires d != [] && Opens(d)
    ensures var x := Rotated(OpenWriter(d, []), io);
      |x.dir| > |d| ==> (Openable(x.dir) <==> ScanDir(Listed(d)).state.tailBytes == 0)
  {
    hide Parse, DirRecs, ScanDir, Listed, Opens, NextId, OpenWriter, SyncEntries, TornBytes;
    OpenMounted(d);
    var x := Rotated(OpenWriter(d, []), io);
    if |x.dir| > |d| {
      var s := NewSegment(NextId(d).value);
      var grown := SyncLast(d) + [s];
      SyncEntriesOpens(grown);
      assert Front(grown) == SyncLast(d) && Last(grown) == s;
      assert x.dir == grown || x.dir == SyncEntries(grown);
      SyncShape(d);
      SameBytesClean(d, SyncLast(d));
      NothingParsed();
      FrontIsClean(d);
    }
  }

  // ------------------------------------------------------------------ reading over a gap

  lemma OpensOrdered(d: Dir)
    requires d != [] && Opens(d)
    ensures Ordered(d)
  {
  }

  /**
   A put over a gap, then a get: the ref points the torn length before the frame, and the value
   comes back exactly if the bytes there are, by accident, a put frame of that very value.
   */
  lemma PutThenGet(d: Dir, r: Rec)
    requires d != [] && Opens(d) && r.kind.Put?
    ensures var w := OpenWriter(d, []); var f := Frame(r);
      var place := RecordRef(w.activeId, w.activeSize, |f|);
      var seen := (TornBytes(d) + f)[..|f|];
      && ReadFile(Appended(w, r).dir, place.segment, place.offset, place.len) == Ok(seen)
      && (DecodePayloadForGet(seen, place) == Ok(r.payload) <==>
          exists q: Rec :: q.kind.Put? && q.payload == r.payload && Frame(q) == seen)
  {
    hide Opens, OpenWriter, Frame, DecodeNext, Lookup, Parse, DirRecs, Newest, ScanDir, Listed;
    OpenMounted(d);
    FrameLength(r);
    var w, f := OpenWriter(d, []), Frame(r);
    var e, b, t := Extend(d, f), Last(d).bytes, TornBytes(d);
    OpensOrdered(d);
    IdsKeepOrder(d, e);
    LookupAt(e, |e| - 1);
    var at := Parse(b).end;
    assert Last(e).bytes == b + f && (b + f)[at..at + |f|] == (t + f)[..|f|];
    var seen := (t + f)[..|f|];
    forall q: Rec | q.kind.Put? && q.payload == r.payload && Frame(q) == seen
      ensures DecodePayloadForGet(seen, RecordRef(w.activeId, w.activeSize, |f|)) == Ok(r.payload)
    {
      assert seen[0..|seen|] == seen;
      FrameDecodes(seen, 0, q);
    }
    if DecodePayloadForGet(seen, RecordRef(w.activeId, w.activeSize, |f|)) == Ok(r.payload) {
      var q := DecodeNext(seen, 0).value.rec;
      DecodedIsFrame(seen, 0, q, |f|);
      assert seen[0..|f|] == seen;
    }
  }

  /** The value of a put is what a get of its ref returns. */
  predicate ComesBack(d: Dir, r: Rec)
    requires d != []
  {
    var w := OpenWriter(d, []);
    var place := RecordRef(w.activeId, w.activeSize, |Frame(r)|);
    match ReadFile(Appended(w, r).dir, place.segment, place.offset, place.len)
    case Ok(bytes) => DecodePayloadForGet(bytes, place) == Ok(r.payload)
    case Err(_) => false
  }

  /** The bytes before the lengths of a put frame. */
  function PutStart(txid: U64): (b: seq<Byte>)
    ensures |b| == 16
  {
    MAGIC + LE(WIRE_VERSION, 2) + [Put.AsByte(), 0] + LE(txid, 8)
  }

  lemma PutFrameStarts(r: Rec)
    requires r.kind.Put?
    ensures |Frame(r)| >= 28 && Frame(r)[..16] == PutStart(r.txid) && Frame(r)[20..24] == LE(|r.payload|, 4)
  {
    hide Crc32c.Crc, LE;
    FrameLength(r);
    var h := Header(r);
    HeaderSlices(r.kind, r.txid, |r.key|, |r.payload|);
    assert Frame(r)[..24] == h;
    assert Frame(r)[20..24] == Frame(r)[..24][20..24] && Frame(r)[..16] == h[..16];
    assert h == PutStart(r.txid) + LE(|r.key|, 4) + LE(|r.payload|, 4);
  }

  /** Over a torn tail, the torn bytes and the txid fix the payload length of every put that comes back. */
  lemma BackLength(d: Dir, r: Rec)
    requires d != [] && Opens(d) && r.kind.Put? && TornBytes(d) != [] && ComesBack(d, r)
    ensures |TornBytes(d)| >= 8 && LE(|r.payload|, 4) == (TornBytes(d) + PutStart(r.txid))[20..24]
  {
    hide Opens, OpenWriter, Frame, DecodePayloadForGet, ReadFile, TornBytes, LE, PutStart, Appended;
    var t, f := TornBytes(d), Frame(r);
    PutThenGet(d, r);
    var seen := (t + f)[..|f|];
    var q: Rec :| q.kind.Put? && q.payload == r.payload && Frame(q) == seen;
    PutFrameStarts(r);
    PutFrameStarts(q);
    FrameStart(r);
    FrameStart(q);
    assert |t| < |f| ==> seen[|t|] == f[0];
    if |t| >= 8 {
      assert forall i :: 20 <= i < 24 ==> seen[i] == (t + f[..16])[i];
      assert seen[20..24] == (t + f[..16])[20..24];
    }
  }

  /** So puts of one txid that come back over a torn tail have one payload length. */
  lemma BackSameLength(d: Dir, r: Rec, s: Rec)
    requires d != [] && Opens(d) && TornBytes(d) != [] && r.kind.Put? && s.kind.Put? && r.txid == s.txid
    requires ComesBack(d, r) && ComesBack(d, s)
    ensures |r.payload| == |s.payload|
  {
    hide Opens, TornBytes, ComesBack, LE, FromLE, PutStart;
    BackLength(d, r);
    BackLength(d, s);
    Powers();
    FromLEInvertsLE(|r.payload|, 4);
    FromLEInvertsLE(|s.payload|, 4);
  }

  lemma CleanComesBack(d: Dir, r: Rec)
    requires d != [] && Opens(d) && r.kind.Put? && TornBytes(d) == []
    ensures ComesBack(d, r)
  {
    hide Opens, OpenWriter, Frame, DecodePayloadForGet, ReadFile, TornBytes, Appended;
    PutThenGet(d, r);
    var f := Frame(r);
    assert ([] + f)[..|f|] == f;
  }

  /**
   Put and get: whatever a handle puts next, a get of it returns the value, if and only if the scan
   at open discarded no tail bytes.
   */
  lemma PutsComeBackIff(d: Dir, txid: U64)
    requires d != [] && Opens(d)
    ensures (forall r: Rec :: r.kind.Put? && r.txid == txid ==> ComesBack(d, r))
       <==> ScanDir(Listed(d)).state.tailBytes == 0
  {
    hide Opens, TornBytes, ComesBack, ScanDir, Listed, OpenWriter;
    OpenMounted(d);
    if TornBytes(d) == [] {
      forall r: Rec | r.kind.Put? && r.txid == txid
        ensures ComesBack(d, r)
      {
        CleanComesBack(d, r);
      }
    } else {
      var r, s := Rec(Put, txid, [], []), Rec(Put, txid, [], [0]);
      if ComesBack(d, r) && ComesBack(d, s) {
        BackSameLength(d, r, s);
      }
    }
  }

  // ------------------------------------------------------------------ the durability law

  /** What the documentation promises of a handle: after any power loss, all that was made durable is found. */
  ghost predicate KeepsPromises(d: Dir) {
    forall actions: seq<Action>, x: Writer, e: Dir ::
      Runs(OpenWriter(d, []), actions, x) && RunWithinLimit(OpenWriter(d, []), actions) && CrashTo(x.dir, e)
      ==> ScanDir(Listed(e)).error.None? && x.durable <= Found(e)
  }

  /** One record appended to a mounted directory and forced to disk. */
  function Forced(d: Dir, rec: Rec): Dir
    requires d != []
  {
    SyncEntries(SyncLast(Extend(d, Frame(rec))))
  }

  lemma SyncLastOpens(x: Dir)
    requires x != []
    ensures Openable(SyncLast(x)) <==> Openable(x)
    ensures DirRecs(SyncLast(x)) == DirRecs(x)
  {
    hide Parse, SyncLast, DirRecs;
    SyncShape(x);
    DirRecsSplit(x);
    DirRecsSplit(SyncLast(x));
  }

  lemma ExtendKeepsIds(d: Dir, f: seq<Byte>)
    requires d != []
    ensures var x := Extend(d, f);
      |x| == |d| && x != [] && Last(x) == x[|d| - 1] && Last(x).id == Last(d).id && forall i :: 0 <= i < |d| - 1 ==> x[i] == d[i]
  {
    var x := Extend(d, f);
    assert forall i :: 0 <= i < |d| - 1 ==> x[i] == Front(x)[i] == Front(d)[i] == d[i];
  }

  lemma ForcedShape(d: Dir, rec: Rec)
    requires Mounted(d)
    ensures var e, x := Forced(d, rec), Extend(d, Frame(rec));
      && e != [] && DirRecs(e) == DirRecs(x) && (Openable(e) ==> Openable(x))
      && (forall i :: 0 <= i < |e| ==> e[i].synced <= |e[i].bytes| && e[i].id < ID_LIMIT)
  {
    hide Frame, Parse, DirRecs, Openable, SyncLast, AllClean, Entered, Extend;
    var x := Extend(d, Frame(rec));
    OrderedBelow(d);
    hide Ordered;
    ExtendKeepsIds(d, Frame(rec));
    var y := SyncLast(x);
    SyncShape(x);
    SyncLastOpens(x);
    EntriesShape(y);
    SyncEntriesOpens(y);
  }

  /** What the handle returns after one append and one fsync, all going well. */
  function AppendedForced(d: Dir, rec: Rec): Writer
    requires d != []
  {
    var w := Appended(OpenWriter(d, []), rec);
    w.(dir := Forced(d, rec), durable := w.acked)
  }

  lemma MountedOpens(d: Dir)
    requires Mounted(d)
    ensures Opens(d) && d != []
  {
  }

  lemma AppendedOnActive(w: Writer, rec: Rec)
    requires OnActive(w)
    ensures Appended(w, rec).dir != [] && OnActive(Appended(w, rec))
  {
    hide Frame;
  }

  lemma ForcedNotFound(d: Dir, rec: Rec)
    requires d != [] && Mounted(d) && !AppendIsFound(d, rec)
    ensures var e := Forced(d, rec);
      !(ScanDir(Listed(e)).error.None? && DirRecs(d) + [rec] <= Found(e))
  {
    hide Frame, Parse, DirRecs, ScanDir, Listed, Forced, Extend, Mounted, Openable;
    var e := Forced(d, rec);
    MountedOpens(d);
    ForcedShape(d, rec);
    ListedAll(e);
    ScanSucceedsIff(e);
    if Openable(e) {
      FoundIs(e);
    }
  }

  /**
   The loss, for any record that the append does not place where a reopen finds it: the append
   and an fsync succeed, and a reopen without any power loss already misses the record.
   */
  lemma ForcedIsLost(d: Dir, rec: Rec)
    requires Mounted(d) && !AppendIsFound(d, rec)
    requires var w := OpenWriter(d, []); rec.txid == w.nextTxid < U64_MAX && w.activeSize + |Frame(rec)| <= U64_MAX
    ensures var x := AppendedForced(d, rec);
      && Runs(OpenWriter(d, []), AppendSteps(rec.kind, rec.key, rec.payload, |Frame(rec)|, Written) + FsyncSteps(true, true), x)
      && x.durable == DirRecs(d) + [rec] && CrashTo(x.dir, x.dir)
      && !(ScanDir(Listed(x.dir)).error.None? && x.durable <= Found(x.dir))
    ensures !KeepsPromises(d)
  {
    hide Runs, RunWithinLimit, CrashTo, OpenWriter, ScanDir, Listed, Mounted, Parse, Frame, DirRecs, Extend, SyncEntries,
      SyncLast, AppendIsFound, Found, Newest, TornBytes;
    var w := OpenWriter(d, []);
    MountedOpens(d);
    OpenMounted(d);
    var w1 := Appended(w, rec);
    var acts, force := AppendSteps(rec.kind, rec.key, rec.payload, |Frame(rec)|, Written), FsyncSteps(true, true);
    var x := AppendedForced(d, rec);
    AppendIsRun(w, rec.kind, rec.key, rec.payload, Written);
    AppendedOnActive(w, rec);
    FsyncIsRun(w1, true, true);
    RunsConcat(w, acts, w1, force, x);
    NoRotateWithinLimit(w, acts + force);
    ForcedShape(d, rec);
    StaysPut(x.dir);
    ForcedNotFound(d, rec);
    assert Runs(OpenWriter(d, []), acts + force, x) && CrashTo(x.dir, x.dir);
  }

  /** Over every torn tail there is a record that is lost so. */
  lemma PromiseBroken(d: Dir)
    requires Mounted(d) && !Clean(Last(d).bytes)
    requires |Last(d).bytes| + HEADER_LEN + CRC_LEN <= U64_MAX && OpenWriter(d, []).nextTxid < U64_MAX
    ensures !KeepsPromises(d)
  {
    hide OpenWriter, Mounted, Parse, Frame, DirRecs, ScanDir, Listed, KeepsPromises, AppendIsFound, Newest;
    MountedOpens(d);
    OpenMounted(d);
    var t := TornBytes(d);
    var kind := if |t| >= 7 && t[6] == Raw.AsByte() then Put else Raw;
    var rec := Rec(kind, OpenWriter(d, []).nextTxid, [], []);
    FrameLength(rec);
    AppendLost(d, rec);
    ForcedIsLost(d, rec);
  }

  lemma NothingRecovered(d: Dir)
    requires d == [Seg(1, [0x44], 0, true)]
    ensures DirRecs(d) == [] && Newest(0, DirRecs(d)) == 0
  {
    assert Parse([0x44]) == Parsed([], 0, Torn);
    DirRecsSplit(d);
    NothingScanned(Front(d));
  }

  /** One stray byte is enough. */
  lemma TornExampleBreaks()
    ensures !KeepsPromises([Seg(1, [0x44], 0, true)])
  {
    hide OpenWriter, KeepsPromises, ScanDir, Listed, Parse, Mounted;
    var d := [Seg(1, [0x44], 0, true)];
    TornExample();
    MountedOpens(d);
    OpenMounted(d);
    TornParses(d);
    NothingRecovered(d);
    PromiseBroken(d);
  }

  lemma SettledKeepsPromises(d: Dir)
    requires Settled(d)
    ensures KeepsPromises(d)
  {
    hide OpenWriter, ScanDir, Listed, CrashTo, Runs, RunWithinLimit, RunAnchored, Anchored, Attempted, Found, Settled;
    forall actions: seq<Action>, x: Writer, e: Dir |
      Runs(OpenWriter(d, []), actions, x) && RunWithinLimit(OpenWriter(d, []), actions) && CrashTo(x.dir, e)
      ensures ScanDir(Listed(e)).error.None? && x.durable <= Found(e)
    {
      RunSurvivesPowerLoss(d, actions, x, e);
    }
  }

  /**
   The durability law, and exactly when it holds: a handle keeps the promise that whatever it
   appended and forced to disk is found after any power loss if and only if the open that
   produced it reported no discarded tail bytes. The bounds say that one small append has room.
   */
  lemma DurabilityIff(d: Dir)
    requires Mounted(d)
    requires |Last(d).bytes| + HEADER_LEN + CRC_LEN <= U64_MAX && OpenWriter(d, []).nextTxid < U64_MAX
    ensures KeepsPromises(d) <==> ScanDir(Listed(d)).state.tailBytes == 0
  {
    hide OpenWriter, ScanDir, Listed, Mounted, KeepsPromises, Clean, Parse, DirRecs, Newest, Settled;
    MountedOpens(d);
    OpenMounted(d);
    CleanIsSettled(d);
    if Clean(Last(d).bytes) {
      SettledKeepsPromises(d);
    } else {
      PromiseBroken(d);
    }
  }
}
