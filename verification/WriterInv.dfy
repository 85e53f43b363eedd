/** What every step of the writer keeps, and what a power loss leaves of it. */
module WriterInv {
  import opened Bytes
  import opened Format
  import opened Recovery
  import opened Segment
  import opened Scan
  import opened ScanFacts
  import opened Writer

  function PendingOf(phase: Phase): Option<Pending> {
    match phase
    case Appending(p) => Some(p)
    case Poisoned(left) => left
    case _ => None
  }

  /** The bytes of an unfinished append that are already in the file. */
  function Piece(p: Option<Pending>): seq<Byte> {
    if p.None? || p.value.written > |Frame(p.value.rec)| then [] else Frame(p.value.rec)[..p.value.written]
  }

  /** Every record a writer was ever asked to append and that may be on disk. */
  function Attempted(w: Writer): seq<Rec> {
    w.acked + if PendingOf(w.phase).Some? then [PendingOf(w.phase).value.rec] else []
  }

  /** Segments that will not change any more: whole frames, synced. */
  predicate Sealed(d: Dir) {
    forall i :: 0 <= i < |d| ==> Clean(d[i].bytes) && d[i].synced == |d[i].bytes|
  }

  function Tail(d: Dir, recs: seq<Rec>): seq<Rec>
    requires d != []
  {
    if |DirRecs(Front(d))| <= |recs| then recs[|DirRecs(Front(d))|..] else []
  }

  /** The directory holds the records recs, then a piece of at most one more frame. */
  predicate Holds(d: Dir, recs: seq<Rec>, p: Option<Pending>) {
    && d != [] && Ordered(d) && Last(d).id < ID_LIMIT && Sealed(Front(d))
    && Last(d).synced <= |Last(d).bytes|
    && DirRecs(Front(d)) <= recs
    && Last(d).bytes == Frames(Tail(d, recs)) + Piece(p)
    && (p.Some? ==> p.value.written <= |Frame(p.value.rec)|)
  }

  /** What the handle knows about its active segment. */
  predicate HandleFits(w: Writer)
    requires w.dir != []
  {
    match w.phase
    case Idle => w.activeId == Last(w.dir).id && w.activeSize == |Last(w.dir).bytes|
    case FsyncedFile =>
      && w.activeId == Last(w.dir).id && w.activeSize == |Last(w.dir).bytes|
      && Last(w.dir).synced == |Last(w.dir).bytes|
    case RotateSynced =>
      && w.activeId == Last(w.dir).id && w.activeSize == |Last(w.dir).bytes|
      && Last(w.dir).synced == |Last(w.dir).bytes|
    case Appending(p) =>
      && w.activeId == Last(w.dir).id && p.rec.txid == w.nextTxid
      && w.activeSize + p.written == |Last(w.dir).bytes|
    case RotateCreated => Last(w.dir).bytes == []
    case RotateEntered => Last(w.dir).bytes == []
    case Poisoned(_) => true
  }

  function SyncedPart(s: Seg): seq<Byte> {
    if s.synced <= |s.bytes| then s.bytes[..s.synced] else s.bytes
  }

  /**
   The records that every power loss leaves at the front of the log: the synced ones, up to the
   first file that holds records and may vanish.
   */
  function Guaranteed(d: Dir): seq<Rec>
    decreases |d|
  {
    if d == [] then []
    else if !Entered(Front(d)) then Guaranteed(Front(d))
    else DirRecs(Front(d)) + if Last(d).entry then Parse(SyncedPart(Last(d))).recs else []
  }

  /** No file that holds anything stands behind one that holds records and may vanish. */
  predicate HoleFree(d: Dir)
    decreases |d|
  {
    d != [] ==> (Last(d).bytes == [] || Entered(Front(d))) && HoleFree(Front(d))
  }

  predicate Inv(w: Writer) {
    && Holds(w.dir, w.acked, PendingOf(w.phase))
    && HandleFits(w)
    && w.durable <= Guaranteed(w.dir)
  }

  // ------------------------------------------------------------------ reading a held directory

  /** The records of the last segment, with the pending one included. */
  function Full(d: Dir, recs: seq<Rec>, p: Option<Pending>): seq<Rec>
    requires d != []
  {
    Tail(d, recs) + if p.Some? then [p.value.rec] else []
  }

  /** The last segment is a prefix of the frames of the acknowledged and the pending records. */
  lemma HeldBytes(d: Dir, recs: seq<Rec>, p: Option<Pending>)
    requires Holds(d, recs, p)
    ensures |Frames(Tail(d, recs))| <= |Last(d).bytes|
    ensures Last(d).bytes <= Frames(Full(d, recs, p))
    ensures recs == DirRecs(Front(d)) + Tail(d, recs)
  {
    hide Frame, Frames, DirRecs;
    var tail := Tail(d, recs);
    if p.Some? {
      FramesSnoc(tail, p.value.rec);
    } else {
      assert tail + [] == tail;
    }
  }

  /** What a scan recovers of a prefix of the held last segment. */
  lemma HeldPrefixParses(d: Dir, recs: seq<Rec>, p: Option<Pending>, k: nat)
    requires Holds(d, recs, p) && k <= |Last(d).bytes|
    ensures var q := Parse(Last(d).bytes[..k]);
      && q.recs == Full(d, recs, p)[..Whole(Full(d, recs, p), k)]
      && q.end == |Frames(q.recs)| && q.stop == if q.end == k then AtEnd else Torn
  {
    hide Parse, Frames, Frame, Whole, DirRecs, Sealed, Ordered, Piece, Tail;
    HeldBytes(d, recs, p);
    hide Holds, Full;
    var full := Full(d, recs, p);
    assert Frames(full)[..k] == Last(d).bytes[..k];
    LongestValidPrefix(full, k);
  }

  /** The scan of a held last segment finds the acknowledged records, and the pending one if it is whole. */
  lemma HeldTail(d: Dir, recs: seq<Rec>, p: Option<Pending>)
    requires Holds(d, recs, p)
    ensures var q := Parse(Last(d).bytes);
      && (q.stop.AtEnd? || q.stop.Torn?) && (p.None? ==> q.stop.AtEnd?)
      && (q.recs == Tail(d, recs)
          || (p.Some? && p.value.written == |Frame(p.value.rec)| && q.recs == Full(d, recs, p)))
  {
    hide Parse, Frames, Frame, DirRecs, Sealed, Ordered, Tail;
    var b, tail := Last(d).bytes, Tail(d, recs);
    if p.None? {
      FramesParse(tail);
      assert b == Frames(tail);
    } else {
      var r, n := p.value.rec, p.value.written;
      if n == |Frame(r)| {
        FramesSnoc(tail, r);
        assert Frame(r)[..n] == Frame(r);
        FramesParse(tail + [r]);
      } else {
        TailParses(tail, r, Frame(r)[..n]);
      }
    }
  }

  lemma FullOf(d: Dir, recs: seq<Rec>, p: Option<Pending>)
    requires Holds(d, recs, p)
    ensures var tail, full := Tail(d, recs), Full(d, recs, p);
      full == tail + (if p.Some? then [p.value.rec] else []) && full[..|tail|] == tail
  {
  }

  /** All acknowledged records are recovered, and at most the pending one besides them. */
  lemma HeldRecovers(d: Dir, recs: seq<Rec>, p: Option<Pending>)
    requires Holds(d, recs, p)
    ensures Openable(d) && Last(d).synced <= |Last(d).bytes|
    ensures DirRecs(d) == recs || (p.Some? && p.value.written == |Frame(p.value.rec)| && DirRecs(d) == recs + [p.value.rec])
    ensures p.None? ==> Clean(Last(d).bytes) && DirRecs(d) == recs
  {
    hide Parse, Frames, Frame, DirRecs;
    HeldBytes(d, recs, p);
    HeldTail(d, recs, p);
    FullOf(d, recs, p);
    DirRecsSplit(d);
    hide Tail, Full;
    var tail := Tail(d, recs);
    if p.Some? {
      assert DirRecs(Front(d)) + (tail + [p.value.rec]) == (DirRecs(Front(d)) + tail) + [p.value.rec];
    }
  }

  lemma WholeGrows(recs: seq<Rec>, k: nat, m: nat)
    requires k <= m
    ensures recs[..Whole(recs, k)] <= recs[..Whole(recs, m)]
  {
    hide Whole, Frames;
    WholeIff(recs, k, Whole(recs, k));
    WholeIff(recs, m, Whole(recs, k));
  }

  // ------------------------------------------------------------------ what is guaranteed

  lemma PrefixConcat(a: seq<Rec>, x: seq<Rec>, y: seq<Rec>)
    requires x <= y
    ensures a <= a + x <= a + y
  {
  }

  lemma NothingParsed()
    ensures Parse([]) == Parsed([], 0, AtEnd)
  {
  }

  lemma EnteredParts(d: Dir)
    requires d != []
    ensures Entered(d) <==> Entered(Front(d)) && (Last(d).entry || Last(d).bytes == [])
  {
    assert Last(d) == d[|d| - 1] && forall i :: 0 <= i < |d| - 1 ==> Front(d)[i] == d[i];
  }

  lemma {:induction false} SealedGuaranteed(d: Dir)
    requires Sealed(d)
    ensures Guaranteed(d) <= DirRecs(d)
    ensures Entered(d) ==> Guaranteed(d) == DirRecs(d)
    decreases |d|
  {
    hide Parse;
    if d != [] {
      DirRecsSplit(d);
      NothingParsed();
      assert Last(d) == d[|d| - 1] && forall i :: 0 <= i < |d| - 1 ==> Front(d)[i] == d[i];
      SealedGuaranteed(Front(d));
      EnteredParts(d);
      assert SyncedPart(Last(d)) == Last(d).bytes;
      PrefixConcat(DirRecs(Front(d)), [], Parse(Last(d).bytes).recs);
    }
  }

  /** What a power loss must leave is among what a scan finds now. */
  lemma GuaranteedIsFound(d: Dir, recs: seq<Rec>, p: Option<Pending>)
    requires Holds(d, recs, p)
    ensures Guaranteed(d) <= DirRecs(d)
    ensures p.None? && Entered(d) && Last(d).synced == |Last(d).bytes| ==> Guaranteed(d) == recs
  {
    hide Parse, Frames, Frame, DirRecs, Whole, Tail, Ordered, Sealed, Entered;
    var b, k := Last(d).bytes, Last(d).synced;
    var full := Full(d, recs, p);
    HeldPrefixParses(d, recs, p, k);
    HeldPrefixParses(d, recs, p, |b|);
    assert b[..|b|] == b;
    DirRecsSplit(d);
    WholeGrows(full, k, |b|);
    SealedGuaranteed(Front(d));
    EnteredParts(d);
    NothingParsed();
    PrefixConcat(DirRecs(Front(d)), full[..Whole(full, k)], full[..Whole(full, |b|)]);
    if p.None? {
      HeldRecovers(d, recs, p);
    }
  }

  lemma {:induction false} EnteredHoleFree(d: Dir)
    requires Entered(d)
    ensures HoleFree(d)
    decreases |d|
  {
    hide Entered;
    if d != [] {
      EnteredParts(d);
      EnteredHoleFree(Front(d));
    }
  }

  // ------------------------------------------------------------------ power loss

  lemma SealedParts(d: Dir)
    requires d != []
    ensures Sealed(d) <==> Sealed(Front(d)) && Clean(Last(d).bytes) && Last(d).synced == |Last(d).bytes|
  {
    hide Clean;
    assert Last(d) == d[|d| - 1] && forall i :: 0 <= i < |d| - 1 ==> Front(d)[i] == d[i];
  }

  /** Sealed segments come through a power loss whole, or vanish whole. */
  lemma {:induction false} SealedCrash(d: Dir, e: Dir)
    requires Sealed(d) && CrashTo(d, e)
    ensures Sealed(e)
    ensures Entered(d) ==> Entered(e) && DirRecs(e) == DirRecs(d)
    ensures HoleFree(d) ==> DirRecs(e) <= DirRecs(d)
    decreases |d|
  {
    hide Parse, Clean, Sealed, Entered, DirRecs;
    if d != [] {
      var front, s := Front(d), Last(d);
      DirRecsSplit(d);
      EnteredParts(d);
      SealedParts(d);
      NothingParsed();
      if e != [] && Survives(s, Last(e)) && CrashTo(front, Front(e)) {
        SealedCrash(front, Front(e));
        assert Last(e).bytes == s.bytes;
        DirRecsSplit(e);
        EnteredParts(e);
        SealedParts(e);
        PrefixConcat(DirRecs(front), Parse(s.bytes).recs, Parse(s.bytes).recs);
      } else {
        SealedCrash(front, e);
        PrefixConcat(DirRecs(front), [], Parse(s.bytes).recs);
      }
    }
  }

  lemma {:induction false} SealedGuaranteedGrows(d: Dir, e: Dir)
    requires Sealed(d) && CrashTo(d, e)
    ensures Guaranteed(d) <= Guaranteed(e)
    decreases |d|
  {
    hide Parse, Clean, DirRecs, Entered;
    if d != [] {
      var front, s := Front(d), Last(d);
      assert Sealed(front) && s == d[|d| - 1] by { assert forall i :: 0 <= i < |d| - 1 ==> front[i] == d[i]; }
      if e != [] && Survives(s, Last(e)) && CrashTo(front, Front(e)) {
        SealedCrash(front, Front(e));
        SealedGuaranteed(Front(e));
        SealedGuaranteedGrows(front, Front(e));
        assert Last(e).bytes == s.bytes && SyncedPart(s) == s.bytes == SyncedPart(Last(e));
        hide CrashTo;
        PrefixConcat(DirRecs(Front(e)), [], Parse(s.bytes).recs);
      } else {
        SealedCrash(front, e);
        SealedGuaranteed(e);
        SealedGuaranteedGrows(front, e);
      }
    }
  }

  lemma LastSynced(d: Dir, recs: seq<Rec>, p: Option<Pending>)
    requires Holds(d, recs, p)
    ensures d != [] && Last(d).synced <= |Last(d).bytes| && Sealed(Front(d))
  {
  }

  /** The last segment is cut at or after its synced length. */
  lemma SurvivorParts(d: Dir, recs: seq<Rec>, p: Option<Pending>, t: Seg)
    requires Holds(d, recs, p) && Survives(Last(d), t)
    ensures var s := Last(d);
      && Parse(SyncedPart(s)).recs <= Parse(SyncedPart(t)).recs <= Parse(t.bytes).recs <= Parse(s.bytes).recs
      && !Parse(t.bytes).stop.Structural?
  {
    hide Parse, Holds, Whole, Full;
    LastSynced(d, recs, p);
    var s, full := Last(d), Full(d, recs, p);
    var b := s.bytes;
    HeldPrefixParses(d, recs, p, s.synced);
    HeldPrefixParses(d, recs, p, t.synced);
    HeldPrefixParses(d, recs, p, |t.bytes|);
    HeldPrefixParses(d, recs, p, |b|);
    assert b[..|b|] == b && b[..|t.bytes|] == t.bytes && SyncedPart(t) == b[..t.synced] && SyncedPart(s) == b[..s.synced];
    WholeGrows(full, s.synced, t.synced);
    WholeGrows(full, t.synced, |t.bytes|);
    WholeGrows(full, |t.bytes|, |b|);
  }

  lemma SealedOpenable(d: Dir)
    requires Sealed(d)
    ensures Openable(d) && AllClean(d)
  {
    hide Parse;
    if d != [] {
      assert Clean(Last(d).bytes);
    }
  }

  lemma SurvivorRecovers(d: Dir, recs: seq<Rec>, p: Option<Pending>, e: Dir)
    requires Holds(d, recs, p) && d != []
    requires e != [] && CrashTo(Front(d), Front(e)) && Survives(Last(d), Last(e))
    ensures Openable(e)
    ensures Guaranteed(d) <= Guaranteed(e) <= DirRecs(e)
    ensures HoleFree(d) ==> DirRecs(e) <= DirRecs(d)
  {
    hide Parse, DirRecs, Clean, Holds, CrashTo, Entered, SyncedPart, Sealed;
    var front, s, t := Front(d), Last(d), Last(e);
    LastSynced(d, recs, p);
    SurvivorParts(d, recs, p, t);
    SealedCrash(front, Front(e));
    SealedGuaranteedGrows(front, Front(e));
    SealedGuaranteed(Front(e));
    SealedOpenable(Front(e));
    DirRecsSplit(d);
    DirRecsSplit(e);
    var before, after := DirRecs(front), DirRecs(Front(e));
    PrefixConcat(after, Parse(SyncedPart(s)).recs, Parse(SyncedPart(t)).recs);
    PrefixConcat(after, Parse(SyncedPart(t)).recs, Parse(t.bytes).recs);
    PrefixConcat(before, Parse(t.bytes).recs, Parse(s.bytes).recs);
    if s.bytes == [] {
      assert t.bytes == [];
      NothingParsed();
    }
    hide HoleFree;
  }

  lemma VanishedRecovers(d: Dir, recs: seq<Rec>, p: Option<Pending>, e: Dir)
    requires Holds(d, recs, p) && d != [] && !Last(d).entry && CrashTo(Front(d), e)
    ensures Openable(e)
    ensures Guaranteed(d) <= Guaranteed(e) <= DirRecs(e)
    ensures HoleFree(d) ==> DirRecs(e) <= DirRecs(d)
  {
    hide Parse, DirRecs, Clean, Holds, CrashTo, Entered, Sealed;
    LastSynced(d, recs, p);
    SealedCrash(Front(d), e);
    SealedGuaranteedGrows(Front(d), e);
    SealedGuaranteed(e);
    SealedGuaranteed(Front(d));
    SealedOpenable(e);
    DirRecsSplit(d);
    PrefixConcat(DirRecs(Front(d)), [], Parse(Last(d).bytes).recs);
  }

  /**
   After any power loss the log opens with every guaranteed record at its front, and what was
   guaranteed stays so; unless a file with records could vanish before another, the records
   found are the first of those that were there.
   */
  lemma CrashRecovers(d: Dir, recs: seq<Rec>, p: Option<Pending>, e: Dir)
    requires Holds(d, recs, p) && CrashTo(d, e)
    ensures Openable(e)
    ensures Guaranteed(d) <= Guaranteed(e) <= DirRecs(e)
    ensures HoleFree(d) ==> DirRecs(e) <= DirRecs(d)
  {
    hide Parse, Holds, DirRecs, Survives, Guaranteed, HoleFree, Openable;
    LastSynced(d, recs, p);
    if e != [] && Survives(Last(d), Last(e)) && CrashTo(Front(d), Front(e)) {
      SurvivorRecovers(d, recs, p, e);
    } else {
      VanishedRecovers(d, recs, p, e);
    }
  }

  lemma {:induction false} CrashIds(d: Dir, e: Dir)
    requires CrashTo(d, e) && forall i :: 0 <= i < |d| ==> d[i].id < ID_LIMIT
    ensures forall i :: 0 <= i < |e| ==> e[i].id < ID_LIMIT
    decreases |d|
  {
    if d != [] {
      assert Last(d) == d[|d| - 1] && forall i :: 0 <= i < |d| - 1 ==> Front(d)[i] == d[i];
      if e != [] && Survives(Last(d), Last(e)) && CrashTo(Front(d), Front(e)) {
        CrashIds(Front(d), Front(e));
        assert forall i :: 0 <= i < |e| - 1 ==> Front(e)[i] == e[i];
      } else {
        CrashIds(Front(d), e);
      }
    }
  }
}
