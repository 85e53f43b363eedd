/**
 The key-value projection of a log: the live value map as a fold over records, and the keydir,
 which holds only the places of the records that carry the live values.
 */
module Keydir {
  import opened Bytes
  import opened Format
  import opened Scan
  import opened ScanFacts
  import opened FdPool
  import opened Crc32c
  import opened Burst

  type Values = map<seq<Byte>, seq<Byte>>
  type Refs = map<seq<Byte>, RecordRef>

  function ProjectOne(m: Values, r: Rec): Values {
    match r.kind
    case Put => m[r.key := r.payload]
    case Delete => m - {r.key}
    case Raw => m
  }

  /** Last write wins; a delete removes; raw records are not part of the projection. */
  function Project(recs: seq<Rec>): Values
    decreases |recs|
  {
    if recs == [] then map[] else ProjectOne(Project(recs[..|recs| - 1]), recs[|recs| - 1])
  }

  function KeydirOne(m: Refs, r: Record): Refs {
    match r.rec.kind
    case Put => m[r.rec.key := r.Ref()]
    case Delete => m - {r.rec.key}
    case Raw => m
  }

  /** The keydir that replaying the records in order builds. */
  function KeydirOf(rs: seq<Record>): Refs
    decreases |rs|
  {
    if rs == [] then map[] else KeydirOne(KeydirOf(rs[..|rs| - 1]), rs[|rs| - 1])
  }

  lemma ProjectSnoc(recs: seq<Rec>, r: Rec)
    ensures Project(recs + [r]) == ProjectOne(Project(recs), r)
  {
    assert (recs + [r])[..|recs|] == recs;
  }

  lemma KeydirSnoc(rs: seq<Record>, r: Record)
    ensures KeydirOf(rs + [r]) == KeydirOne(KeydirOf(rs), r)
  {
    assert (rs + [r])[..|rs|] == rs;
  }

  /** Record i is a put for the key and no later put or delete touches the key. */
  predicate CarriesLive(rs: seq<Record>, key: seq<Byte>, i: nat) {
    && i < |rs| && rs[i].rec.kind.Put? && rs[i].rec.key == key
    && forall j :: i < j < |rs| && rs[j].rec.key == key ==> rs[j].rec.kind.Raw?
  }

  lemma CarriesLiveStep(rs: seq<Record>, key: seq<Byte>, i: nat)
    requires rs != []
    ensures var front, r := rs[..|rs| - 1], rs[|rs| - 1];
      CarriesLive(rs, key, i) <==>
        (if i == |rs| - 1 then r.rec.kind.Put? && r.rec.key == key
         else CarriesLive(front, key, i) && (r.rec.key == key ==> r.rec.kind.Raw?))
  {
    var front := rs[..|rs| - 1];
    assert forall j :: 0 <= j < |front| ==> front[j] == rs[j];
  }

  /**
   A key is live exactly when some put for it is not followed by another put or delete for it.
   The keydir then holds the place of that record, and the value map its payload.
   */
  lemma {:induction false} LiveIff(rs: seq<Record>, key: seq<Byte>)
    ensures key in KeydirOf(rs) <==> exists i: nat :: CarriesLive(rs, key, i)
    ensures key in Project(Strip(rs)) <==> key in KeydirOf(rs)
    ensures forall i: nat :: CarriesLive(rs, key, i) ==>
      KeydirOf(rs)[key] == rs[i].Ref() && Project(Strip(rs))[key] == rs[i].rec.payload
    decreases |rs|
  {
    if rs != [] {
      var front, r := rs[..|rs| - 1], rs[|rs| - 1];
      LiveIff(front, key);
      ProjectSnoc(Strip(front), r.rec);
      forall i: nat
        ensures CarriesLive(rs, key, i) <==>
          (if i == |rs| - 1 then r.rec.kind.Put? && r.rec.key == key
           else CarriesLive(front, key, i) && (r.rec.key == key ==> r.rec.kind.Raw?))
      {
        CarriesLiveStep(rs, key, i);
      }
      if r.rec.key == key && r.rec.kind.Put? {
        assert CarriesLive(rs, key, |rs| - 1);
      } else if key in KeydirOf(rs) {
        var i: nat :| CarriesLive(front, key, i);
        assert CarriesLive(rs, key, i);
      }
    }
  }

  // ------------------------------------------------------------------ reading a value back

  datatype GetError =
    | ShortFrame(got: nat)
    | LengthMismatch(decoded: nat, expected: nat)
    | NotAPut(kind: RecordType)
    | FrameTruncated(available: nat, needed: nat)
    | FrameCrcMismatch(size: nat)
    | FrameStructural(error: DecodeError)
    | PoolFailed(poolError: PoolError)
    | KeydirDesync

  lemma FrameStarts(bytes: seq<Byte>, q: Rec)
    requires StartsAt(bytes, 0, Frame(q))
    ensures HEADER_LEN <= |Frame(q)| <= |bytes|
  {
  }

  function DecodePayloadForGet(bytes: seq<Byte>, place: RecordRef): Result<seq<Byte>, GetError> {
    if |bytes| < HEADER_LEN then Err(ShortFrame(|bytes|))
    else match DecodeNext(bytes, 0)
      case Ok(Decoded(r, n)) =>
        if n != place.len then Err(LengthMismatch(n, place.len))
        else if !r.kind.Put? then Err(NotAPut(r.kind))
        else Ok(r.payload)
      case Ok(Truncated(available, needed)) => Err(FrameTruncated(available, needed))
      case Ok(CrcMismatch(n)) => Err(FrameCrcMismatch(n))
      case Err(e) => Err(FrameStructural(e))
  }

  /** The checks of get let through exactly a put frame of the ref's length, and give its payload. */
  lemma PayloadIff(bytes: seq<Byte>, place: RecordRef, v: seq<Byte>)
    ensures DecodePayloadForGet(bytes, place) == Ok(v) <==>
      exists q: Rec :: q.kind.Put? && StartsAt(bytes, 0, Frame(q)) && |Frame(q)| == place.len && q.payload == v
  {
    hide Frame, DecodeNext, StartsAt;
    if DecodePayloadForGet(bytes, place) == Ok(v) {
      var q := DecodeNext(bytes, 0).value.rec;
      DecodedIsFrame(bytes, 0, q, DecodeNext(bytes, 0).value.bytesConsumed);
      assert q.kind.Put? && StartsAt(bytes, 0, Frame(q));
    }
    forall q: Rec | q.kind.Put? && StartsAt(bytes, 0, Frame(q)) && |Frame(q)| == place.len && q.payload == v
      ensures DecodePayloadForGet(bytes, place) == Ok(v)
    {
      FrameDecodes(bytes, 0, q);
      FrameStarts(bytes, q);
    }
  }

  /** With what they refuse other frames, and pieces of one. */
  lemma RefusedFrames(bytes: seq<Byte>, place: RecordRef, q: Rec)
    ensures StartsAt(bytes, 0, Frame(q)) && |Frame(q)| != place.len ==>
      DecodePayloadForGet(bytes, place) == Err(LengthMismatch(|Frame(q)|, place.len))
    ensures StartsAt(bytes, 0, Frame(q)) && |Frame(q)| == place.len && !q.kind.Put? ==>
      DecodePayloadForGet(bytes, place) == Err(NotAPut(q.kind))
    ensures bytes < Frame(q) ==>
      DecodePayloadForGet(bytes, place) == Err(if |bytes| < 24 then ShortFrame(|bytes|) else FrameTruncated(|bytes|, |Frame(q)|))
  {
    hide Frame, DecodeNext, StartsAt;
    if StartsAt(bytes, 0, Frame(q)) {
      FrameDecodes(bytes, 0, q);
      FrameStarts(bytes, q);
    }
    if bytes < Frame(q) {
      assert bytes[0..] == bytes;
      TornFrameIsTruncated(bytes, 0, q);
    }
  }

  /** Reading through a ref to a put record in place gives that record's payload. */
  lemma PlacedReads(d: Dir, r: Record)
    requires Placed(d, r) && r.rec.kind.Put?
    ensures ReadFile(d, r.segment, r.offset, r.len) == Ok(Frame(r.rec))
    ensures DecodePayloadForGet(Frame(r.rec), r.Ref()) == Ok(r.rec.payload)
  {
    hide Frame, DecodeNext, Lookup;
    var f := Frame(r.rec);
    assert f[0..|f|] == f;
    FrameDecodes(f, 0, r.rec);
    FrameLength(r.rec);
  }

  lemma FrameReads(b: seq<Byte>, place: RecordRef)
    ensures forall q: Rec :: |Frame(q)| == place.len ==>
      (StartsAt(b, place.offset, Frame(q)) <==>
         place.offset + place.len <= |b| && StartsAt(b[place.offset..place.offset + place.len], 0, Frame(q)))
  {
    hide Frame;
    if place.offset + place.len <= |b| {
      var g := b[place.offset..place.offset + place.len];
      assert g[0..|g|] == g;
    }
  }

  /** The value that get would return for a key, with files that open. */
  function ReadValue(d: Dir, refs: Refs, key: seq<Byte>): Result<Option<seq<Byte>>, GetError> {
    if key !in refs then Ok(None)
    else
      var place := refs[key];
      match ReadFile(d, place.segment, place.offset, place.len)
      case Err(e) => Err(PoolFailed(e))
      case Ok(bytes) =>
        match DecodePayloadForGet(bytes, place)
        case Err(e) => Err(e)
        case Ok(v) => Ok(Some(v))
  }

  lemma NeverDesync(d: Dir, refs: Refs, key: seq<Byte>)
    ensures ReadValue(d, refs, key).Err? ==> !ReadValue(d, refs, key).error.KeydirDesync?
  {
    hide Lookup, DecodeNext;
  }

  /** A value is read exactly if a put frame with that payload and the ref's length stands at the ref. */
  lemma ReadValueIff(d: Dir, refs: Refs, key: seq<Byte>, v: seq<Byte>)
    ensures ReadValue(d, refs, key) == Ok(None) <==> key !in refs
    ensures key in refs ==>
      var place := refs[key];
      ReadValue(d, refs, key) == Ok(Some(v)) <==> exists q: Rec ::
        && q.kind.Put? && q.payload == v && |Frame(q)| == place.len
        && Lookup(d, place.segment).Some? && StartsAt(Lookup(d, place.segment).value, place.offset, Frame(q))
  {
    hide Lookup, Frame, DecodePayloadForGet, StartsAt;
    if key in refs && Lookup(d, refs[key].segment).Some? {
      var place, b := refs[key], Lookup(d, refs[key].segment).value;
      FrameReads(b, place);
      if ReadFile(d, place.segment, place.offset, place.len).Ok? {
        PayloadIff(ReadFile(d, place.segment, place.offset, place.len).value, place, v);
      }
    }
  }

  /**
   The keydir of records in place serves exactly the projected values, although reading never
   looks at the key of the frame.
   */
  lemma KeydirServes(d: Dir, rs: seq<Record>, key: seq<Byte>)
    requires forall r <- rs :: Placed(d, r)
    ensures ReadValue(d, KeydirOf(rs), key)
         == Ok(if key in Project(Strip(rs)) then Some(Project(Strip(rs))[key]) else None)
  {
    hide Placed, ReadFile, DecodePayloadForGet, KeydirOf, Project, Strip;
    LiveIff(rs, key);
    if key in KeydirOf(rs) {
      var i: nat :| CarriesLive(rs, key, i);
      assert rs[i] in rs;
      PlacedReads(d, rs[i]);
    }
  }

  /**
   A burst of at most 32 bits in the frame of a live key, outside its length fields, makes reading
   the key an error, and from the ninth byte on that of the checksum. d is the directory before the
   damage, e the one after it.
   */
  lemma DamagedIsRefused(d: Dir, e: Dir, rs: seq<Record>, key: seq<Byte>, j: nat, i: nat, n: nat)
    requires j < |rs| && CarriesLive(rs, key, j) && Placed(d, rs[j])
    requires Lookup(e, rs[j].segment).Some? && rs[j].offset + rs[j].len <= |Lookup(e, rs[j].segment).value|
    requires n <= 32 && (i + n <= 128 || i >= 192)
    requires var f, g := Frame(rs[j].rec), Lookup(e, rs[j].segment).value[rs[j].offset..rs[j].offset + rs[j].len];
      g != f && DifferWithin(Bits(f), Bits(g), i, n)
    ensures ReadValue(e, KeydirOf(rs), key).Err?
    ensures i >= 64 ==> ReadValue(e, KeydirOf(rs), key) == Err(FrameCrcMismatch(rs[j].len))
  {
    hide Lookup, Frame, DecodeNext, Bits, DifferWithin, KeydirOf, Project, CarriesLive;
    LiveIff(rs, key);
    var r := rs[j];
    var g := Lookup(e, r.segment).value[r.offset..r.offset + r.len];
    assert g[0..|g|] == g;
    FrameLength(r.rec);
    BurstInBuffer(r.rec, g, 0, i, n);
  }

  /** Over a directory: every key reads back as the projection of the recovered records. */
  lemma DirectoryServes(d: Dir, key: seq<Byte>)
    requires Ordered(d)
    ensures ReadValue(d, KeydirOf(DirRecords(d)), key)
         == Ok(if key in Project(DirRecs(d)) then Some(Project(DirRecs(d))[key]) else None)
  {
    hide Placed, ReadValue, KeydirOf, Project, Strip, DirRecords, DirRecs;
    RecordsPlaced(d);
    RecordsMatchRecs(d);
    KeydirServes(d, DirRecords(d), key);
  }

  /** However rotates split the same records into segments, every key reads the same. */
  lemma BlindToSegmentation(d: Dir, e: Dir, key: seq<Byte>)
    requires Ordered(d) && Ordered(e) && DirRecs(d) == DirRecs(e)
    ensures ReadValue(d, KeydirOf(DirRecords(d)), key) == ReadValue(e, KeydirOf(DirRecords(e)), key)
  {
    hide ReadValue, KeydirOf, Project, DirRecords, DirRecs;
    DirectoryServes(d, key);
    DirectoryServes(e, key);
  }
}
