/** A directory as its listing sees it: segment files, and entries that are ignored. */
module Listing {
  import opened Bytes
  import opened Segment
  import opened Scan

  function Entries(d: Dir): (entries: seq<DirEntry>)
    ensures |entries| == |d| && forall i :: 0 <= i < |d| ==> entries[i] == DirEntry(SegmentName(d[i].id), true)
    decreases |d|
  {
    if d == [] then [] else Entries(Front(d)) + [DirEntry(SegmentName(Last(d).id), true)]
  }

  /**
   Any directory splits this way: files whose names the listing recognises, in order of their
   ids, and other entries, which it ignores, because they are not files or for their names.
   */
  predicate Splits(d: Dir, others: seq<DirEntry>) {
    && Ordered(d) && Listed(d) == d && DistinctNames(Entries(d) + others)
    && forall entry <- others :: entry.isFile ==> ParseSegmentFilename(entry.name).None?
  }

  lemma {:induction false} ListedShort(d: Dir)
    ensures |Listed(d)| <= |d|
    decreases |d|
  {
    hide SegmentName, ParseSegmentFilename;
    if d != [] {
      ListedShort(Front(d));
    }
  }

  lemma ListedParts(d: Dir)
    requires d != [] && Listed(d) == d
    ensures Listed(Front(d)) == Front(d) && ParseSegmentFilename(SegmentName(Last(d).id)).Some?
  {
    hide SegmentName, ParseSegmentFilename;
    ListedShort(Front(d));
    var named := ParseSegmentFilename(SegmentName(Last(d).id)).Some?;
    assert Listed(d) == Listed(Front(d)) + if named then [Last(d)] else [];
    hide Listed;
    assert named && d == Front(d) + [Last(d)];
    assert Listed(Front(d)) == d[..|d| - 1];
  }

  lemma {:induction false} ListedBelow(d: Dir)
    requires Listed(d) == d
    ensures forall i :: 0 <= i < |d| ==> d[i].id < ID_LIMIT
    decreases |d|
  {
    hide SegmentName, ParseSegmentFilename;
    if d != [] {
      ListedParts(d);
      hide Listed;
      ParseOfName(Last(d).id);
      ListedBelow(Front(d));
      assert forall i :: 0 <= i < |d| - 1 ==> d[i] == Front(d)[i];
    }
  }

  lemma SameName(a: U32, b: U32)
    requires a < ID_LIMIT && b < ID_LIMIT && SegmentName(a) == SegmentName(b)
    ensures a == b
  {
    hide SegmentName, ParseSegmentFilename;
    ParseOfName(a);
    ParseOfName(b);
  }

  /** The listing of such a directory gives exactly the ids of its segments. */
  lemma ListingGivesIds(d: Dir, others: seq<DirEntry>, ids: seq<U32>)
    requires Splits(d, others) && Ascending(ids)
    requires forall id: U32 :: id in ids <==> id < ID_LIMIT && DirEntry(SegmentName(id), true) in Entries(d) + others
    ensures ids == Ids(d)
  {
    hide SegmentName, ParseSegmentFilename, Listed, Entries, DistinctNames;
    ListedBelow(d);
    forall id: U32
      ensures id in ids <==> id in Ids(d)
    {
      if id < ID_LIMIT && DirEntry(SegmentName(id), true) in Entries(d) + others {
        ParseOfName(id);
        assert DirEntry(SegmentName(id), true) in Entries(d);
        var i :| 0 <= i < |d| && Entries(d)[i] == DirEntry(SegmentName(id), true);
        SameName(id, d[i].id);
        assert Ids(d)[i] == id;
      }
      if id in Ids(d) {
        var i :| 0 <= i < |d| && Ids(d)[i] == id;
        assert Entries(d)[i] == DirEntry(SegmentName(id), true) && (Entries(d) + others)[i] == Entries(d)[i];
      }
    }
    AscendingUnique(ids, Ids(d));
  }
}
