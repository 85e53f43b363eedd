/** What compaction writes: one put per live key, in byte order of the keys, numbered from 1. */
module Compaction {
  import opened Bytes
  import opened Format
  import opened Recovery
  import opened Scan
  import opened ScanFacts
  import opened Keydir

  /** The order in which byte strings sort. */
  predicate Less(a: seq<Byte>, b: seq<Byte>)
    decreases |a|
  {
    b != [] && (a == [] || a[0] < b[0] || (a[0] == b[0] && Less(a[1..], b[1..])))
  }

  lemma {:induction false} LessTotal(a: seq<Byte>, b: seq<Byte>)
    ensures Less(a, b) || a == b || Less(b, a)
    ensures !(Less(a, b) && Less(b, a)) && !Less(a, a)
    decreases |a|
  {
    if a != [] {
      LessTotal(a[1..], a[1..]);
    }
    if a != [] && b != [] && a[0] == b[0] {
      LessTotal(a[1..], b[1..]);
      assert a == [a[0]] + a[1..] && b == [b[0]] + b[1..];
    }
  }

  lemma {:induction false} LessTransitive(a: seq<Byte>, b: seq<Byte>, c: seq<Byte>)
    requires Less(a, b) && Less(b, c)
    ensures Less(a, c)
    decreases |a|
  {
    if a != [] && a[0] == b[0] == c[0] {
      LessTransitive(a[1..], b[1..], c[1..]);
    }
  }

  /** a is a proper prefix of b, or has the smaller byte at the first place where they differ. */
  lemma {:induction false} LessIff(a: seq<Byte>, b: seq<Byte>)
    ensures Less(a, b) <==> a < b || exists i :: 0 <= i < |a| && i < |b| && a[..i] == b[..i] && a[i] < b[i]
    decreases |a|
  {
    if a != [] && b != [] && a[0] == b[0] {
      var s, t := a[1..], b[1..];
      LessIff(s, t);
      assert a < b <==> s < t;
      if i :| 0 <= i < |s| && i < |t| && s[..i] == t[..i] && s[i] < t[i] {
        assert a[..i + 1] == [a[0]] + s[..i] == b[..i + 1] && a[i + 1] < b[i + 1];
      }
      if i :| 0 <= i < |a| && i < |b| && a[..i] == b[..i] && a[i] < b[i] {
        assert s[..i - 1] == a[..i][1..] == b[..i][1..] == t[..i - 1] && s[i - 1] < t[i - 1];
      }
    } else if a != [] && b != [] && a[0] < b[0] {
      assert a[..0] == b[..0];
    }
  }

  predicate AscendingKeys(ks: seq<seq<Byte>>) {
    forall i, j :: 0 <= i < j < |ks| ==> Less(ks[i], ks[j])
  }

  /** The sorted list of a set of keys. */
  predicate Enumerates(ks: seq<seq<Byte>>, keys: set<seq<Byte>>) {
    AscendingKeys(ks) && (forall k <- ks :: k in keys) && (forall k <- keys :: k in ks)
  }

  lemma InByteOrder(ks: seq<seq<Byte>>)
    requires AscendingKeys(ks)
    ensures forall i, j :: 0 <= i < j < |ks| ==>
      var a, b := ks[i], ks[j]; a < b || exists n :: 0 <= n < |a| && n < |b| && a[..n] == b[..n] && a[n] < b[n]
  {
    hide Less;
    forall i, j | 0 <= i < j < |ks|
      ensures var a, b := ks[i], ks[j]; a < b || exists n :: 0 <= n < |a| && n < |b| && a[..n] == b[..n] && a[n] < b[n]
    {
      LessIff(ks[i], ks[j]);
    }
  }

  lemma TailEnumerates(ks: seq<seq<Byte>>, keys: set<seq<Byte>>)
    requires Enumerates(ks, keys) && ks != []
    ensures Enumerates(ks[1..], keys - {ks[0]})
  {
    hide Less;
    assert ks == [ks[0]] + ks[1..];
    forall i | 0 < i < |ks|
      ensures ks[i] != ks[0]
    {
      LessTotal(ks[0], ks[i]);
    }
  }

  /** There is only one. */
  lemma {:induction false} EnumerationUnique(ks: seq<seq<Byte>>, js: seq<seq<Byte>>, keys: set<seq<Byte>>)
    requires Enumerates(ks, keys) && Enumerates(js, keys)
    ensures ks == js
    decreases |ks|
  {
    hide Less;
    assert ks != [] ==> ks[0] in ks;
    assert js != [] ==> js[0] in js;
    if ks != [] {
      var k := ks[0];
      assert k in js;
      LessTotal(ks[0], js[0]);
      assert ks[0] == js[0];
      TailEnumerates(ks, keys);
      TailEnumerates(js, keys);
      EnumerationUnique(ks[1..], js[1..], keys - {k});
      assert ks == [ks[0]] + ks[1..] && js == [js[0]] + js[1..];
    }
  }

  /** The library sort, one insertion at a time. */
  function InsertKey(k: seq<Byte>, ks: seq<seq<Byte>>): seq<seq<Byte>>
    decreases |ks|
  {
    if ks == [] || Less(k, ks[0]) then [k] + ks else [ks[0]] + InsertKey(k, ks[1..])
  }

  lemma {:induction false} InsertKeySorts(k: seq<Byte>, ks: seq<seq<Byte>>)
    requires AscendingKeys(ks) && k !in ks
    ensures AscendingKeys(InsertKey(k, ks))
    ensures forall x :: x in InsertKey(k, ks) <==> x == k || x in ks
    decreases |ks|
  {
    hide Less;
    if ks == [] {
    } else if Less(k, ks[0]) {
      forall i | 0 < i < |ks|
        ensures Less(k, ks[i])
      {
        LessTransitive(k, ks[0], ks[i]);
      }
    } else {
      var t := InsertKey(k, ks[1..]);
      assert ks == [ks[0]] + ks[1..];
      InsertKeySorts(k, ks[1..]);
      LessTotal(k, ks[0]);
      forall i | 0 <= i < |t|
        ensures Less(ks[0], t[i])
      {
        assert t[i] in t;
      }
    }
  }

  method SortedKeys(keys: set<seq<Byte>>) returns (ks: seq<seq<Byte>>)
    ensures Enumerates(ks, keys)
    ensures forall k :: k in ks <==> k in keys
    ensures forall i, j :: 0 <= i < j < |ks| ==>
      var a, b := ks[i], ks[j]; a < b || exists n :: 0 <= n < |a| && n < |b| && a[..n] == b[..n] && a[n] < b[n]
  {
    hide Less;
    ks := [];
    var pending := keys;
    while pending != {}
      invariant pending <= keys && Enumerates(ks, keys - pending)
      decreases pending
    {
      var k :| k in pending;
      InsertKeySorts(k, ks);
      ks := InsertKey(k, ks);
      pending := pending - {k};
    }
    assert keys - pending == keys;
    InByteOrder(ks);
  }

  // ------------------------------------------------------------------ the compacted log

  /** Values that a log can hold. */
  predicate Storable(m: Values) {
    |m| < U64_MAX && forall k <- m :: |k| <= MAX_KEY_LEN && |m[k]| <= MAX_PAYLOAD_LEN
  }

  /** The records of the keys ks, numbered from 1. */
  function CompactRecs(ks: seq<seq<Byte>>, m: Values): (recs: seq<Rec>)
    requires |ks| <= U64_MAX && forall k <- ks :: k in m && |k| <= MAX_KEY_LEN && |m[k]| <= MAX_PAYLOAD_LEN
    ensures |recs| == |ks|
    decreases |ks|
  {
    if ks == [] then []
    else
      var k := ks[|ks| - 1];
      CompactRecs(ks[..|ks| - 1], m) + [Rec(Put, |ks|, k, m[k])]
  }

  lemma {:induction false} CompactRecAt(ks: seq<seq<Byte>>, m: Values, i: nat)
    requires |ks| <= U64_MAX && forall k <- ks :: k in m && |k| <= MAX_KEY_LEN && |m[k]| <= MAX_PAYLOAD_LEN
    requires i < |ks|
    ensures CompactRecs(ks, m)[i] == Rec(Put, i + 1, ks[i], m[ks[i]])
    decreases |ks|
  {
    if i < |ks| - 1 {
      CompactRecAt(ks[..|ks| - 1], m, i);
    }
  }

  /** b is the content of a compacted segment for the values m. */
  ghost predicate CompactsTo(m: Values, b: seq<Byte>) {
    Storable(m) && exists ks: seq<seq<Byte>> :: Enumerates(ks, m.Keys) && |ks| < U64_MAX && b == Frames(CompactRecs(ks, m))
  }

  lemma MapSnoc(front: seq<seq<Byte>>, k: seq<Byte>, m: Values)
    requires k in m && forall x <- front :: x in m
    ensures (map x | x in front :: m[x])[k := m[k]] == map x | x in front + [k] :: m[x]
  {
  }

  lemma {:induction false} ProjectCompacted(ks: seq<seq<Byte>>, m: Values)
    requires |ks| < U64_MAX && forall k <- ks :: k in m && |k| <= MAX_KEY_LEN && |m[k]| <= MAX_PAYLOAD_LEN
    ensures Project(CompactRecs(ks, m)) == map k | k in ks :: m[k]
    decreases |ks|
  {
    if ks != [] {
      var front, k := ks[..|ks| - 1], ks[|ks| - 1];
      var before, r := CompactRecs(front, m), Rec(Put, |ks|, k, m[k]);
      assert CompactRecs(ks, m) == before + [r];
      assert ks == front + [k];
      ProjectCompacted(front, m);
      ProjectSnoc(before, r);
      hide CompactRecs, Project;
      MapSnoc(front, k, m);
    }
  }

  /** Compaction is canonical: equal live values give byte-identical segments. */
  lemma CompactionIsCanonical(m: Values, b: seq<Byte>, c: seq<Byte>)
    requires CompactsTo(m, b) && CompactsTo(m, c)
    ensures b == c
  {
    var ks: seq<seq<Byte>> :| Enumerates(ks, m.Keys) && |ks| < U64_MAX && b == Frames(CompactRecs(ks, m));
    var js: seq<seq<Byte>> :| Enumerates(js, m.Keys) && |js| < U64_MAX && c == Frames(CompactRecs(js, m));
    EnumerationUnique(ks, js, m.Keys);
  }

  lemma CompactedKeys(m: Values, b: seq<Byte>) returns (ks: seq<seq<Byte>>)
    requires CompactsTo(m, b)
    ensures Enumerates(ks, m.Keys) && AscendingKeys(ks) && |ks| < U64_MAX
    ensures forall k <- ks :: k in m && |k| <= MAX_KEY_LEN && |m[k]| <= MAX_PAYLOAD_LEN
    ensures b == Frames(CompactRecs(ks, m))
  {
    hide Frames, CompactRecs, AscendingKeys;
    ks :| Enumerates(ks, m.Keys) && |ks| < U64_MAX && b == Frames(CompactRecs(ks, m));
  }

  lemma AllKeys(ks: seq<seq<Byte>>, m: Values)
    requires Enumerates(ks, m.Keys) && forall k <- ks :: k in m
    ensures (map k | k in ks :: m[k]) == m
  {
  }

  lemma CompactRecsShape(ks: seq<seq<Byte>>, m: Values)
    requires |ks| < U64_MAX && AscendingKeys(ks)
    requires forall k <- ks :: k in m && |k| <= MAX_KEY_LEN && |m[k]| <= MAX_PAYLOAD_LEN
    ensures var recs := CompactRecs(ks, m);
      && (forall i :: 0 <= i < |recs| ==> recs[i].kind.Put? && recs[i].txid == i + 1)
      && (forall i, j :: 0 <= i < j < |recs| ==>
            var a, b := recs[i].key, recs[j].key; a < b || exists n :: 0 <= n < |a| && n < |b| && a[..n] == b[..n] && a[n] < b[n])
  {
    hide Less, CompactRecs, AscendingKeys;
    InByteOrder(ks);
    var recs := CompactRecs(ks, m);
    forall i | 0 <= i < |ks|
      ensures recs[i].kind.Put? && recs[i].txid == i + 1 && recs[i].key == ks[i]
    {
      CompactRecAt(ks, m, i);
    }
  }

  lemma {:induction false} EnumerationSize(ks: seq<seq<Byte>>, keys: set<seq<Byte>>)
    requires Enumerates(ks, keys)
    ensures |ks| == |keys|
    decreases |ks|
  {
    hide Less;
    if ks == [] {
      assert keys == {};
    } else {
      assert ks[0] in ks;
      TailEnumerates(ks, keys);
      EnumerationSize(ks[1..], keys - {ks[0]});
    }
  }

  /**
   Compaction preserves meaning: a compacted segment is clean; it holds one put per live key, in
   ascending order, numbered from 1, and no tombstone; and it projects to the same values.
   */
  lemma CompactionMeans(m: Values, b: seq<Byte>)
    requires CompactsTo(m, b)
    ensures var recs := Parse(b).recs;
      && Clean(b) && Project(recs) == m && |recs| == |m|
      && (forall i :: 0 <= i < |recs| ==> recs[i].kind.Put? && recs[i].txid == i + 1)
      && (forall i, j :: 0 <= i < j < |recs| ==>
            var a, b := recs[i].key, recs[j].key; a < b || exists n :: 0 <= n < |a| && n < |b| && a[..n] == b[..n] && a[n] < b[n])
  {
    hide Parse, Frames, Less, Project, CompactRecs, CompactsTo, Enumerates, AscendingKeys;
    var ks := CompactedKeys(m, b);
    var recs := CompactRecs(ks, m);
    FramesParse(recs);
    ProjectCompacted(ks, m);
    AllKeys(ks, m);
    EnumerationSize(ks, m.Keys);
    CompactRecsShape(ks, m);
  }

  /** A store over a compacted directory serves the compacted values. */
  lemma CompactedServes(m: Values, d: Dir, key: seq<Byte>)
    requires |d| == 1 && CompactsTo(m, d[0].bytes)
    ensures ReadValue(d, KeydirOf(DirRecords(d)), key) == Ok(if key in m then Some(m[key]) else None)
    ensures Project(DirRecs(d)) == m
  {
    hide CompactsTo, ReadValue, KeydirOf, DirRecords, Project, Parse;
    CompactionMeans(m, d[0].bytes);
    NothingScanned(Front(d));
    DirRecsSplit(d);
    assert [] + Parse(d[0].bytes).recs == Parse(d[0].bytes).recs;
    DirectoryServes(d, key);
  }

  /** Compacting a compacted store reproduces it byte for byte. */
  lemma CompactingTwice(m: Values, d: Dir, c: seq<Byte>)
    requires |d| == 1 && CompactsTo(m, d[0].bytes) && CompactsTo(Project(DirRecs(d)), c)
    ensures c == d[0].bytes
  {
    hide CompactsTo, Project, DirRecs;
    CompactedServes(m, d, []);
    CompactionIsCanonical(m, c, d[0].bytes);
  }

  lemma {:induction false} ProjectStorable(recs: seq<Rec>)
    ensures var m := Project(recs); forall k <- m :: |k| <= MAX_KEY_LEN && |m[k]| <= MAX_PAYLOAD_LEN
    decreases |recs|
  {
    if recs != [] {
      ProjectStorable(recs[..|recs| - 1]);
    }
  }

  lemma {:induction false} CompactRecsPrefix(ks: seq<seq<Byte>>, m: Values, i: nat)
    requires |ks| <= U64_MAX && forall k <- ks :: k in m && |k| <= MAX_KEY_LEN && |m[k]| <= MAX_PAYLOAD_LEN
    requires i <= |ks|
    ensures CompactRecs(ks[..i], m) == CompactRecs(ks, m)[..i]
    ensures |Frames(CompactRecs(ks[..i], m))| <= |Frames(CompactRecs(ks, m))|
    decreases |ks|
  {
    hide Frames;
    var recs := CompactRecs(ks, m);
    if i == |ks| {
      assert ks[..i] == ks && recs[..i] == recs;
    } else {
      CompactRecsPrefix(ks[..|ks| - 1], m, i);
      assert ks[..|ks| - 1][..i] == ks[..i] && recs[..|ks| - 1][..i] == recs[..i];
    }
    hide CompactRecs;
    FramesConcat(recs[..i], recs[i..]);
    assert recs[..i] + recs[i..] == recs;
  }

  lemma CompactRecsNext(ks: seq<seq<Byte>>, m: Values, i: nat)
    requires i < |ks| && i + 1 <= U64_MAX
    requires forall k <- ks :: k in m && |k| <= MAX_KEY_LEN && |m[k]| <= MAX_PAYLOAD_LEN
    ensures CompactRecs(ks[..i + 1], m) == CompactRecs(ks[..i], m) + [Rec(Put, i + 1, ks[i], m[ks[i]])]
  {
    assert ks[..i + 1][..i] == ks[..i];
  }

  /** The values fit a segment whose size and txids do not overflow. */
  ghost predicate FitsCounters(m: Values) {
    Storable(m) && forall b: seq<Byte> :: CompactsTo(m, b) ==> |b| <= U64_MAX
  }
  lemma {:induction false} FramesBound(recs: seq<Rec>)
    ensures |Frames(recs)| <= 67_174_428 * |recs|
    decreases |recs|
  {
    hide Frame;
    if recs != [] {
      FrameLength(recs[0]);
      FramesBound(recs[1..]);
    }
  }

  /** As those of any store of up to 270 billion keys do. */
  lemma StoreFits(recs: seq<Rec>)
    requires |Project(recs)| <= 270_000_000_000
    ensures FitsCounters(Project(recs))
  {
    hide Project, Frames, CompactRecs, Enumerates, AscendingKeys;
    var m := Project(recs);
    ProjectStorable(recs);
    forall b: seq<Byte> | CompactsTo(m, b)
      ensures |b| <= U64_MAX
    {
      var ks := CompactedKeys(m, b);
      EnumerationSize(ks, m.Keys);
      FramesBound(CompactRecs(ks, m));
    }
  }
}
