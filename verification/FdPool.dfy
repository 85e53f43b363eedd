/** The bounded cache of read-only segment files: a least-recently-used list. */
module FdPool {
  import opened Bytes
  import opened Segment
  import opened Scan
  import opened ScanFacts

  const DEFAULT_CAPACITY: nat := 16

  // ------------------------------------------------------------------ the exact contents

  function Without(s: seq<U32>, x: U32): seq<U32>
    decreases |s|
  {
    if s == [] then []
    else if s[|s| - 1] == x then Without(s[..|s| - 1], x)
    else Without(s[..|s| - 1], x) + [s[|s| - 1]]
  }

  lemma {:induction false} WithoutMembers(s: seq<U32>, x: U32)
    ensures forall y: U32 :: y in Without(s, x) <==> y in s && y != x
    ensures x !in s ==> Without(s, x) == s
    decreases |s|
  {
    if s != [] {
      assert s == s[..|s| - 1] + [s[|s| - 1]];
      WithoutMembers(s[..|s| - 1], x);
    }
  }

  /** The distinct ids of a history of accesses, in order of last access. */
  function Recency(h: seq<U32>): seq<U32>
    decreases |h|
  {
    if h == [] then []
    else Without(Recency(h[..|h| - 1]), h[|h| - 1]) + [h[|h| - 1]]
  }

  function LastOf(s: seq<U32>, n: nat): (r: seq<U32>)
    ensures |r| == if n <= |s| then n else |s|
  {
    if n <= |s| then s[|s| - n..] else s
  }

  /** A capacity of 0 still keeps one file: the hit path runs before the capacity check. */
  function Slots(capacity: nat): nat {
    if capacity == 0 then 1 else capacity
  }

  /** The ids a pool holds after a history of successful accesses, least recent first. */
  function Kept(capacity: nat, h: seq<U32>): seq<U32> {
    LastOf(Recency(h), Slots(capacity))
  }

  /** The position of the last access to x. */
  function LastAccess(h: seq<U32>, x: U32): nat
    requires x in h
    decreases |h|
  {
    if h[|h| - 1] == x then |h| - 1
    else
      assert h == h[..|h| - 1] + [h[|h| - 1]];
      LastAccess(h[..|h| - 1], x)
  }

  lemma {:induction false} LastAccessBound(h: seq<U32>, x: U32)
    requires x in h
    ensures LastAccess(h, x) < |h| && h[LastAccess(h, x)] == x
    ensures forall i :: LastAccess(h, x) < i < |h| ==> h[i] != x
    decreases |h|
  {
    if h[|h| - 1] != x {
      assert h == h[..|h| - 1] + [h[|h| - 1]];
      LastAccessBound(h[..|h| - 1], x);
    }
  }

  lemma {:induction false} WithoutOrder(s: seq<U32>, x: U32) returns (from: seq<nat>)
    ensures |from| == |Without(s, x)|
    ensures forall i :: 0 <= i < |from| ==> from[i] < |s| && s[from[i]] == Without(s, x)[i]
    ensures forall i, j :: 0 <= i < j < |from| ==> from[i] < from[j]
    decreases |s|
  {
    if s == [] {
      from := [];
    } else {
      var front := s[..|s| - 1];
      from := WithoutOrder(front, x);
      assert forall i :: 0 <= i < |from| ==> front[from[i]] == s[from[i]];
      assert Without(s, x) == Without(front, x) + if s[|s| - 1] == x then [] else [s[|s| - 1]];
      hide Without;
      if s[|s| - 1] != x {
        from := from + [|s| - 1];
      }
    }
  }

  lemma RecencyStep(h: seq<U32>, x: U32)
    ensures Recency(h + [x]) == Without(Recency(h), x) + [x]
  {
    assert (h + [x])[..|h|] == h;
  }

  /** The distinct members of s in the order in which h last accessed them. */
  predicate ByLastAccess(h: seq<U32>, s: seq<U32>) {
    && (forall x: U32 :: x in s ==> x in h)
    && Distinct(s)
    && (forall i, j :: 0 <= i < j < |s| ==> LastAccess(h, s[i]) < LastAccess(h, s[j]))
  }

  lemma ByLastAccessStep(g: seq<U32>, s: seq<U32>, x: U32)
    requires ByLastAccess(g, s)
    ensures ByLastAccess(g + [x], Without(s, x) + [x])
  {
    var h, w := g + [x], Without(s, x);
    assert h[..|g|] == g;
    WithoutMembers(s, x);
    var from := WithoutOrder(s, x);
    hide Without;
    assert LastAccess(h, x) == |g|;
    forall i | 0 <= i < |w|
      ensures w[i] in g && LastAccess(h, w[i]) == LastAccess(g, w[i]) < |g| && w[i] != x
    {
      assert w[i] in w;
      LastAccessBound(g, w[i]);
    }
    forall i, j | 0 <= i < j < |w|
      ensures w[i] != w[j] && LastAccess(h, w[i]) < LastAccess(h, w[j])
    {
      assert w[i] == s[from[i]] && w[j] == s[from[j]];
    }
  }

  /** Recency is what its name says: each accessed id once, ordered by last access. */
  lemma {:induction false} RecencyMeans(h: seq<U32>)
    ensures ByLastAccess(h, Recency(h)) && forall x: U32 :: x in h ==> x in Recency(h)
    decreases |h|
  {
    hide Without;
    if h != [] {
      var g, x := h[..|h| - 1], h[|h| - 1];
      assert h == g + [x];
      RecencyMeans(g);
      ByLastAccessStep(g, Recency(g), x);
      WithoutMembers(Recency(g), x);
    }
  }

  // ------------------------------------------------------------------ one access

  lemma {:induction false} WithoutConcat(a: seq<U32>, b: seq<U32>, x: U32)
    ensures Without(a + b, x) == Without(a, x) + Without(b, x)
    decreases |b|
  {
    if b == [] {
      assert a + b == a;
    } else {
      var c, y := b[..|b| - 1], b[|b| - 1];
      WithoutConcat(a, c, x);
      assert (a + b)[..|a + b| - 1] == a + c && (a + b)[|a + b| - 1] == y;
      assert Without(a + b, x) == Without(a + c, x) + if y == x then [] else [y];
      assert Without(b, x) == Without(c, x) + if y == x then [] else [y];
      hide Without;
    }
  }

  lemma LastOfConcat(p: seq<U32>, e: seq<U32>, n: nat)
    requires |e| == n || (p == [] && |e| <= n)
    ensures LastOf(p + e, n) == e
  {
  }

  lemma WithoutOne(a: seq<U32>, x: U32, b: seq<U32>)
    requires x !in a && x !in b
    ensures Without((a + [x]) + b, x) == a + b
  {
    WithoutConcat(a + [x], b, x);
    WithoutConcat(a, [x], x);
    assert Without([x], x) == Without([x][..0], x) == [];
    hide Without;
    WithoutMembers(a, x);
    WithoutMembers(b, x);
    assert a + [] == a;
  }

  lemma DistinctParts(r: seq<U32>, a: seq<U32>, x: U32, b: seq<U32>)
    requires Distinct(r) && r == (a + [x]) + b
    ensures x !in a && x !in b
  {
    assert r[|a|] == x;
    assert forall i :: 0 <= i < |a| ==> r[i] == a[i];
    assert forall i :: 0 <= i < |b| ==> r[|a| + 1 + i] == b[i];
  }

  lemma ByLastAccessDistinct(h: seq<U32>, s: seq<U32>)
    requires ByLastAccess(h, s)
    ensures Distinct(s)
  {
  }

  /** A hit: the id moves to the back. */
  lemma HitIsLru(capacity: nat, h: seq<U32>, at: nat)
    requires at < |Kept(capacity, h)|
    ensures var e := Kept(capacity, h);
      Kept(capacity, h + [e[at]]) == e[..at] + e[at + 1..] + [e[at]]
  {
    RecencyMeans(h);
    hide Recency, Without, ByLastAccess;
    var r, e := Recency(h), Kept(capacity, h);
    var x, p := e[at], r[..|r| - |e|];
    var a, b := e[..at], e[at + 1..];
    assert r == ((p + a) + [x]) + b;
    assert Distinct(r) by { ByLastAccessDistinct(h, r); }
    DistinctParts(r, p + a, x, b);
    WithoutOne(p + a, x, b);
    RecencyStep(h, x);
    assert ((p + a) + b) + [x] == p + (a + b + [x]);
    LastOfConcat(p, a + b + [x], Slots(capacity));
  }

  /** A miss: the id goes to the back, and the front leaves when the pool is full. */
  lemma MissIsLru(capacity: nat, h: seq<U32>, x: U32)
    requires x !in Kept(capacity, h)
    ensures var e := Kept(capacity, h);
      Kept(capacity, h + [x]) == (if |e| >= Slots(capacity) then e[1..] else e) + [x]
  {
    hide Recency, Without;
    var r, e := Recency(h), Kept(capacity, h);
    var p := r[..|r| - |e|];
    var q := Without(p, x);
    RecencyStep(h, x);
    assert r == p + e;
    WithoutConcat(p, e, x);
    WithoutMembers(e, x);
    if |e| >= Slots(capacity) {
      assert (q + e) + [x] == (q + e[..1]) + (e[1..] + [x]);
      LastOfConcat(q + e[..1], e[1..] + [x], Slots(capacity));
    } else {
      assert p == [];
      WithoutMembers(p, x);
      assert (q + e) + [x] == [] + (e + [x]);
      LastOfConcat([], e + [x], Slots(capacity));
    }
  }

  lemma LastOfEnds(s: seq<U32>, n: nat)
    ensures s == s[..|s| - |LastOf(s, n)|] + LastOf(s, n)
  {
  }

  lemma RecencyEmptyIff(h: seq<U32>)
    ensures Recency(h) == [] <==> h == []
  {
  }

  /** The pool holds the most recently used ids, as many as there are slots for and no fewer. */
  lemma KeptSize(capacity: nat, h: seq<U32>)
    ensures var r, e := Recency(h), Kept(capacity, h);
      && |e| == (if capacity <= 1 then (if h == [] then 0 else 1) else if |r| <= capacity then |r| else capacity)
      && r == r[..|r| - |e|] + e
  {
    LastOfEnds(Recency(h), Slots(capacity));
    RecencyEmptyIff(h);
    hide Recency, LastOf;
  }

  /** The pool keeps within its capacity exactly if the capacity is not 0, or nothing was ever accessed. */
  lemma KeptWithinCapacityIff(capacity: nat, h: seq<U32>)
    ensures |Kept(capacity, h)| <= capacity <==> capacity > 0 || h == []
  {
    if h != [] {
      RecencyStep(h[..|h| - 1], h[|h| - 1]);
      assert h == h[..|h| - 1] + [h[|h| - 1]];
    }
  }

  // ------------------------------------------------------------------ the pool

  datatype PoolError = OpenFailed(segment: U32) | ShortRead(segment: U32, offset: nat)

  /** A positional read of exactly len bytes, straight from the directory. */
  function ReadFile(d: Dir, id: U32, offset: nat, len: nat): Result<seq<Byte>, PoolError> {
    match Lookup(d, id)
    case None => Err(OpenFailed(id))
    case Some(b) =>
      if len == 0 then Ok([])
      else if offset + len <= |b| then Ok(b[offset..offset + len])
      else Err(ShortRead(id, offset))
  }

  /** A read gives len bytes exactly if the file holds that many at the offset; it fails for want of a file or of bytes. */
  lemma ReadFileIff(d: Dir, id: U32, offset: nat, len: nat, bytes: seq<Byte>)
    requires Ordered(d)
    ensures var r := ReadFile(d, id, offset, len);
      && (r == Ok(bytes) <==> |bytes| == len && exists s <- d ::
            s.id == id && (len == 0 || (offset + len <= |s.bytes| && s.bytes[offset..offset + len] == bytes)))
      && (r == Err(OpenFailed(id)) <==> forall s <- d :: s.id != id)
      && (r.Err? ==> r.error == OpenFailed(id) || r.error == ShortRead(id, offset))
  {
    hide Lookup;
    forall s <- d | s.id == id
      ensures Lookup(d, id) == Some(s.bytes)
    {
      var i :| 0 <= i < |d| && d[i] == s;
      LookupAt(d, i);
    }
    if Lookup(d, id).Some? {
      LookupFinds(d, id);
      var i :| 0 <= i < |d| && d[i].id == id;
      assert d[i] in d;
    }
  }

  class FdPool {
    const capacity: nat
    /** The segments whose files are open; most recently used at the back. */
    var entries: seq<U32>
    /** The ids accessed with success so far. */
    ghost var history: seq<U32>

    ghost predicate Valid()
      reads this
    {
      entries == Kept(capacity, history)
    }

    constructor (capacity: nat)
      ensures Valid() && this.capacity == capacity && entries == [] && history == []
    {
      this.capacity := capacity;
      entries, history := [], [];
    }

    method Position(id: U32) returns (at: Option<nat>)
      ensures at.None? <==> id !in entries
      ensures at.Some? ==> at.value < |entries| && entries[at.value] == id
    {
      for i := 0 to |entries|
        invariant id !in entries[..i]
      {
        if entries[i] == id {
          return Some(i);
        }
        assert entries[..i + 1] == entries[..i] + [entries[i]];
      }
      assert entries[..|entries|] == entries;
      return None;
    }

    /** canOpen is the outcome the operating system would give an open of an existing file. */
    method TouchOrOpen(d: Dir, id: U32, canOpen: bool) returns (r: Result<U32, PoolError>)
      requires Valid()
      modifies this
      ensures Valid()
      ensures r == if id in old(entries) || (canOpen && Lookup(d, id).Some?) then Ok(id) else Err(OpenFailed(id))
      ensures history == if r.Ok? then old(history) + [id] else old(history)
      ensures r.Err? ==> entries == old(entries)
      ensures forall open <- entries :: open in old(entries) || (r.Ok? && open == id)
    {
      var at := Position(id);
      if at.Some? {
        HitIsLru(capacity, history, at.value);
        entries := entries[..at.value] + entries[at.value + 1..];
        entries := entries + [id];
        history := history + [id];
        return Ok(id);
      }
      if !canOpen || Lookup(d, id).None? {
        return Err(OpenFailed(id));
      }
      MissIsLru(capacity, history, id);
      history := history + [id];
      if capacity == 0 {
        entries := [];
        entries := entries + [id];
        return Ok(id);
      }
      if |entries| >= capacity {
        entries := entries[1..];
      }
      entries := entries + [id];
      return Ok(id);
    }

    /** What is read depends on the directory alone, whatever the pool holds. */
    method ReadAt(d: Dir, id: U32, offset: nat, len: nat, canOpen: bool) returns (r: Result<seq<Byte>, PoolError>)
      requires Valid() && forall open <- entries :: Lookup(d, open).Some?
      modifies this
      ensures Valid() && forall open <- entries :: Lookup(d, open).Some?
      ensures r == if id in old(entries) || canOpen then ReadFile(d, id, offset, len) else Err(OpenFailed(id))
      ensures history == if id in old(entries) || (canOpen && Lookup(d, id).Some?) then old(history) + [id] else old(history)
    {
      var file := TouchOrOpen(d, id, canOpen);
      if file.Err? {
        return Err(file.error);
      }
      var bytes := Lookup(d, file.value).value;
      if len == 0 {
        return Ok([]);
      }
      if offset + len > |bytes| {
        return Err(ShortRead(id, offset));
      }
      return Ok(bytes[offset..offset + len]);
    }
  }
}
