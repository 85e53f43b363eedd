/** Segment file names, the sorted listing of a directory, and the allocation of ids. */
module Segment {
  import opened Bytes

  const SEGMENT_ID_WIDTH: nat := 8
  const SUFFIX: string := ".dwal"

  /** The first id whose name no longer fits the fixed width. */
  const ID_LIMIT: nat := 100_000_000

  function DigitChar(d: nat): char
    requires d < 10
  {
    "0123456789"[d]
  }

  predicate IsDigit(c: char) { '0' <= c <= '9' }

  function DigitOf(c: char): nat
    requires IsDigit(c)
  {
    c as int - '0' as int
  }

  /** The w low decimal digits of n, zero-padded. */
  function Digits(n: nat, w: nat): (s: string)
    ensures |s| == w
  {
    if w == 0 then "" else Digits(n / 10, w - 1) + [DigitChar(n % 10)]
  }

  function Value(s: string): nat
    requires forall c <- s :: IsDigit(c)
    decreases |s|
  {
    if s == "" then 0 else 10 * Value(s[..|s| - 1]) + DigitOf(s[|s| - 1])
  }

  function Pow10(n: nat): nat {
    if n == 0 then 1 else 10 * Pow10(n - 1)
  }

  /** Formatting with a minimum width: ids that need more digits get more digits. */
  function SegmentName(id: U32): string {
    Digits(id, if id < ID_LIMIT then SEGMENT_ID_WIDTH else if id < 1_000_000_000 then 9 else 10) + SUFFIX
  }

  function ParseSegmentFilename(name: string): Option<U32> {
    if |name| < |SUFFIX| || name[|name| - |SUFFIX|..] != SUFFIX then None
    else
      var stripped := name[..|name| - |SUFFIX|];
      if |stripped| != SEGMENT_ID_WIDTH then None
      else if exists c <- stripped :: !IsDigit(c) then None
      else if Value(stripped) <= U32_MAX then Some(Value(stripped)) else None
  }

  // ------------------------------------------------------------------ names and ids

  lemma CharOfDigit(d: nat)
    requires d < 10
    ensures IsDigit(DigitChar(d)) && DigitOf(DigitChar(d)) == d
  {
  }

  lemma ValueSnoc(t: string, c: char)
    requires IsDigit(c) && forall e <- t :: IsDigit(e)
    ensures (forall e <- t + [c] :: IsDigit(e)) && Value(t + [c]) == 10 * Value(t) + DigitOf(c)
  {
    hide DigitOf, IsDigit;
    assert (t + [c])[..|t|] == t;
  }

  lemma {:induction false} ValueOfDigits(n: nat, w: nat)
    requires n < Pow10(w)
    ensures forall c <- Digits(n, w) :: IsDigit(c)
    ensures Value(Digits(n, w)) == n
  {
    if w > 0 {
      hide DigitChar, DigitOf, IsDigit;
      var t, c := Digits(n / 10, w - 1), DigitChar(n % 10);
      ValueOfDigits(n / 10, w - 1);
      CharOfDigit(n % 10);
      ValueSnoc(t, c);
    }
  }

  lemma DigitOfChar(c: char)
    requires IsDigit(c)
    ensures DigitOf(c) < 10 && DigitChar(DigitOf(c)) == c
  {
  }

  lemma {:induction false} DigitsOfValue(s: string)
    requires forall c <- s :: IsDigit(c)
    ensures Value(s) < Pow10(|s|) && Digits(Value(s), |s|) == s
    decreases |s|
  {
    if s != "" {
      hide DigitChar, DigitOf, IsDigit;
      var t, c := s[..|s| - 1], s[|s| - 1];
      DigitsOfValue(t);
      DigitOfChar(c);
      assert Value(s) / 10 == Value(t) && Value(s) % 10 == DigitOf(c);
      assert s == t + [c];
    }
  }

  lemma PowersOfTen()
    ensures Pow10(8) == ID_LIMIT && Pow10(9) == 10 * ID_LIMIT && Pow10(10) == 100 * ID_LIMIT
  {
    assert Pow10(4) == 10_000;
    assert Pow10(6) == 1_000_000;
  }

  /** A segment name is listed under its own id, unless the id has outgrown the width. */
  lemma ParseOfName(id: U32)
    ensures ParseSegmentFilename(SegmentName(id)) == if id < ID_LIMIT then Some(id) else None
  {
    var name := SegmentName(id);
    assert name[|name| - 5..] == SUFFIX;
    if id < ID_LIMIT {
      PowersOfTen();
      ValueOfDigits(id, 8);
      assert name[..|name| - 5] == Digits(id, 8);
    }
  }

  /** Nothing but a printed name is recognised. */
  lemma NameOfParse(name: string)
    requires ParseSegmentFilename(name).Some?
    ensures var id := ParseSegmentFilename(name).value; id < ID_LIMIT && name == SegmentName(id)
  {
    var stripped := name[..|name| - 5];
    DigitsOfValue(stripped);
    PowersOfTen();
    assert name == stripped + SUFFIX;
  }

  lemma NextDigit(n: nat, d: nat, w: nat, s: string)
    requires d < 10 && Digits(n, w) == s
    ensures Digits(10 * n + d, w + 1) == s + ["0123456789"[d]]
  {
  }

  lemma ZeroDigits()
    ensures Digits(0, 4) == "0000" && Digits(0, 7) == "0000000"
  {
  }

  /** Every name spells out its id, with no more digits than eight or those the id needs. */
  lemma NameSpellsId(id: U32)
    ensures var name, w := SegmentName(id), if id < 100_000_000 then 8 else if id < 1_000_000_000 then 9 else 10;
      && |name| == w + 5 && name[w..] == ".dwal" && (forall c <- name[..w] :: IsDigit(c)) && Value(name[..w]) == id
  {
    var w := if id < 100_000_000 then 8 else if id < 1_000_000_000 then 9 else 10;
    PowersOfTen();
    ValueOfDigits(id, w);
    assert SegmentName(id)[..w] == Digits(id, w);
  }

  /** Two of them as characters. */
  lemma NamesOnDisk()
    ensures SegmentName(1) == "00000001.dwal" && SegmentName(1_234) == "00001234.dwal"
  {
    hide Digits;
    ZeroDigits();
    NextDigit(0, 1, 7, "0000000");
    NextDigit(0, 1, 4, "0000");
    NextDigit(1, 2, 5, "00001");
    NextDigit(12, 3, 6, "000012");
    NextDigit(123, 4, 7, "0000123");
  }

  lemma NotPrinted(name: string)
    requires |name| != 13 || !IsDigit(name[7])
    ensures ParseSegmentFilename(name) == None
  {
    if |name| == 13 {
      assert name[..8][7] == name[7];
    }
  }

  lemma NamesParsed()
    ensures ParseSegmentFilename("00000001.dwal") == Some(1) && ParseSegmentFilename("00001234.dwal") == Some(1_234)
    ensures ParseSegmentFilename("1.dwal") == None && ParseSegmentFilename("00000001.txt") == None
    ensures ParseSegmentFilename("0000000a.dwal") == None && ParseSegmentFilename("000000001.dwal") == None
  {
    hide ParseSegmentFilename, SegmentName;
    NamesOnDisk();
    ParseOfName(1);
    ParseOfName(1_234);
    NotPrinted("1.dwal");
    NotPrinted("00000001.txt");
    NotPrinted("0000000a.dwal");
    NotPrinted("000000001.dwal");
  }

  /** Lexicographic order of strings, as a directory listing sorts them. */
  predicate LexLess(a: string, b: string)
    decreases |a|
  {
    b != "" && (a == "" || a[0] < b[0] || (a[0] == b[0] && LexLess(a[1..], b[1..])))
  }

  lemma {:induction false} LexIrreflexive(t: string)
    ensures !LexLess(t, t)
    decreases |t|
  {
    if t != "" {
      LexIrreflexive(t[1..]);
    }
  }

  lemma {:induction false} LexOfCommonTail(a: string, b: string, t: string)
    requires |a| == |b|
    ensures LexLess(a + t, b + t) <==> LexLess(a, b)
    decreases |a|
  {
    if a == "" {
      LexIrreflexive(t);
      assert a + t == t && b + t == t;
    } else {
      LexOfCommonTail(a[1..], b[1..], t);
      assert (a + t)[1..] == a[1..] + t && (b + t)[1..] == b[1..] + t;
    }
  }

  lemma {:induction false} LexOfLastChar(a: string, c: char, b: string, d: char)
    requires |a| == |b|
    ensures LexLess(a + [c], b + [d]) <==> LexLess(a, b) || (a == b && c < d)
    decreases |a|
  {
    if a == "" {
      assert a + [c] == [c] && b + [d] == [d];
    } else {
      LexOfLastChar(a[1..], c, b[1..], d);
      assert (a + [c])[1..] == a[1..] + [c] && (b + [d])[1..] == b[1..] + [d];
      assert a == b <==> a[0] == b[0] && a[1..] == b[1..];
    }
  }

  lemma {:induction false} LexOfDigits(x: nat, y: nat, w: nat)
    requires x < Pow10(w) && y < Pow10(w)
    ensures LexLess(Digits(x, w), Digits(y, w)) <==> x < y
    ensures Digits(x, w) == Digits(y, w) <==> x == y
  {
    ValueOfDigits(x, w);
    ValueOfDigits(y, w);
    if w > 0 {
      LexOfDigits(x / 10, y / 10, w - 1);
      LexOfLastChar(Digits(x / 10, w - 1), DigitChar(x % 10), Digits(y / 10, w - 1), DigitChar(y % 10));
    }
  }

  /** Sorting the names of listed segments sorts their ids. */
  lemma NameOrderIsIdOrder(a: U32, b: U32)
    requires a < ID_LIMIT && b < ID_LIMIT
    ensures LexLess(SegmentName(a), SegmentName(b)) <==> a < b
  {
    PowersOfTen();
    LexOfDigits(a, b, 8);
    LexOfCommonTail(Digits(a, 8), Digits(b, 8), SUFFIX);
  }

  // ------------------------------------------------------------------ listing a directory

  predicate Ascending(ids: seq<U32>) {
    forall i, j :: 0 <= i < j < |ids| ==> ids[i] < ids[j]
  }

  predicate NonDescending(ids: seq<U32>) {
    forall i, j :: 0 <= i < j < |ids| ==> ids[i] <= ids[j]
  }

  function Insert(x: U32, s: seq<U32>): (r: seq<U32>)
    requires NonDescending(s)
    ensures forall i :: 0 <= i < |r| ==> r[i] >= x || (s != [] && r[i] >= s[0])
    ensures NonDescending(r)
    decreases |s|
  {
    if s == [] then [x]
    else if x <= s[0] then [x] + s
    else [s[0]] + Insert(x, s[1..])
  }

  /** The library sort of the listing, as a function. */
  function Sort(s: seq<U32>): (r: seq<U32>)
    ensures NonDescending(r)
    decreases |s|
  {
    if s == [] then [] else Insert(s[0], Sort(s[1..]))
  }

  lemma {:induction false} InsertAdds(x: U32, s: seq<U32>)
    requires NonDescending(s)
    ensures multiset(Insert(x, s)) == multiset(s) + multiset{x}
    decreases |s|
  {
    if s != [] && x > s[0] {
      InsertAdds(x, s[1..]);
      assert s == [s[0]] + s[1..];
    }
  }

  lemma ConsMultiset(s: seq<U32>)
    requires s != []
    ensures multiset(s) == multiset(s[1..]) + multiset{s[0]}
  {
    assert s == [s[0]] + s[1..];
  }

  lemma {:induction false} SortPermutes(s: seq<U32>)
    ensures multiset(Sort(s)) == multiset(s)
    decreases |s|
  {
    hide Insert, NonDescending;
    if s == [] {
    } else {
      SortPermutes(s[1..]);
      InsertAdds(s[0], Sort(s[1..]));
      ConsMultiset(s);
    }
  }

  predicate Distinct<T(==)>(s: seq<T>) {
    forall i, j :: 0 <= i < j < |s| ==> s[i] != s[j]
  }

  lemma CountOfRepeat(r: seq<U32>, i: nat, j: nat)
    requires i < j < |r| && r[i] == r[j]
    ensures multiset(r)[r[i]] >= 2
  {
    assert r == r[..i] + [r[i]] + r[i + 1..j] + [r[j]] + r[j + 1..];
  }

  lemma {:induction false} CountOfDistinct(s: seq<U32>, x: U32)
    requires Distinct(s)
    ensures multiset(s)[x] <= 1
    decreases |s|
  {
    if s != [] {
      CountOfDistinct(s[1..], x);
      assert s == [s[0]] + s[1..];
      assert s[0] !in s[1..];
    }
  }

  lemma SortedDistinct(s: seq<U32>, r: seq<U32>)
    requires Distinct(s) && NonDescending(r) && multiset(r) == multiset(s)
    ensures Ascending(r) && forall x: U32 :: x in r <==> x in s
  {
    forall x: U32
      ensures x in r <==> x in s
    {
      assert x in multiset(r) <==> x in multiset(s);
    }
    forall i, j | 0 <= i < j < |r|
      ensures r[i] < r[j]
    {
      if r[i] == r[j] {
        CountOfRepeat(r, i, j);
        CountOfDistinct(s, r[i]);
      }
    }
  }

  /** What a directory holds under a name: a file, or something else, such as a subdirectory. */
  datatype DirEntry = DirEntry(name: string, isFile: bool)

  predicate DistinctNames(entries: seq<DirEntry>) {
    forall i, j :: 0 <= i < j < |entries| ==> entries[i].name != entries[j].name
  }

  method ListSegmentIds(entries: seq<DirEntry>) returns (ids: seq<U32>)
    requires DistinctNames(entries)
    ensures Ascending(ids)
    ensures forall id: U32 :: id in ids <==> id < ID_LIMIT && DirEntry(SegmentName(id), true) in entries
  {
    hide ParseSegmentFilename, SegmentName, Sort;
    ids := [];
    ghost var from: seq<nat> := [];
    for i := 0 to |entries|
      invariant |from| == |ids| && forall k :: 0 <= k < |ids| ==> from[k] < i
      invariant forall k, m :: 0 <= k < m < |ids| ==> from[k] < from[m]
      invariant forall k :: 0 <= k < |ids| ==> ids[k] < ID_LIMIT && DirEntry(SegmentName(ids[k]), true) == entries[from[k]]
      invariant forall id: U32 :: id < ID_LIMIT && DirEntry(SegmentName(id), true) in entries[..i] ==> id in ids
    {
      assert entries[..i + 1] == entries[..i] + [entries[i]];
      var entry := entries[i];
      if !entry.isFile {
        continue;
      }
      var id := ParseSegmentFilename(entry.name);
      forall other: U32 | other < ID_LIMIT && SegmentName(other) == entry.name
        ensures id == Some(other)
      {
        ParseOfName(other);
      }
      if id.Some? {
        NameOfParse(entry.name);
        ids := ids + [id.value];
        from := from + [i];
      }
    }
    assert entries[..|entries|] == entries;
    assert Distinct(ids);
    ghost var unsorted := ids;
    ids := Sort(ids);
    SortPermutes(unsorted);
    SortedDistinct(unsorted, ids);
  }

  /** Two ascending listings of the same ids are the same listing. */
  lemma {:induction false} AscendingUnique(a: seq<U32>, b: seq<U32>)
    requires Ascending(a) && Ascending(b) && forall x: U32 :: x in a <==> x in b
    ensures a == b
    decreases |a|
  {
    assert a != [] ==> a[0] in a;
    assert b != [] ==> b[0] in b;
    if a == [] {
    } else {
      forall x: U32
        ensures x in a[1..] <==> x in b[1..]
      {
        assert a == [a[0]] + a[1..] && b == [b[0]] + b[1..];
        assert x in a <==> x in b;
      }
      AscendingUnique(a[1..], b[1..]);
    }
  }

  datatype IdError = IdOverflow(last: U32)

  function NextSegmentId(existing: seq<U32>): Result<U32, IdError> {
    if existing == [] then Ok(1)
    else if existing[|existing| - 1] == U32_MAX then Err(IdOverflow(U32_MAX))
    else Ok(existing[|existing| - 1] + 1)
  }

  /** On a sorted listing the new id is one above the largest, and there is none only if that is the last id of all. */
  lemma NextIdIsFresh(existing: seq<U32>)
    requires Ascending(existing)
    ensures existing == [] ==> NextSegmentId(existing) == Ok(1)
    ensures existing != [] ==> match NextSegmentId(existing)
      case Ok(next) => next - 1 in existing && forall id <- existing :: id < next
      case Err(e) => e == IdOverflow(4_294_967_295) && 4_294_967_295 in existing
  {
  }
}
