/** Burst detection: what the checksum promises of a damaged frame. */
module Burst {
  import opened Bytes
  import opened Crc32c
  import opened Format

  // ------------------------------------------------------------------ bits and bytes

  lemma {:induction false} BitsConcat(a: seq<Byte>, b: seq<Byte>)
    ensures Bits(a + b) == Bits(a) + Bits(b)
    decreases |a|
  {
    hide LowBits;
    if a == [] {
      assert a + b == b;
    } else {
      BitsConcat(a[1..], b);
      assert (a + b)[1..] == a[1..] + b;
      assert Bits(a + b) == LowBits(a[0], 8) + Bits(a[1..] + b);
    }
  }

  lemma {:induction false} LowBitsInjective(x: nat, y: nat, n: nat)
    requires x < Pow2(n) && y < Pow2(n) && LowBits(x, n) == LowBits(y, n)
    ensures x == y
  {
    if n > 0 {
      assert LowBits(x, n)[1..] == LowBits(x / 2, n - 1) && LowBits(y, n)[1..] == LowBits(y / 2, n - 1);
      assert LowBits(x, n)[0] == (x % 2 == 1) && LowBits(y, n)[0] == (y % 2 == 1);
      LowBitsInjective(x / 2, y / 2, n - 1);
    }
  }

  lemma EightBits()
    ensures Pow2(8) == 256
  {
    assert Pow2(4) == 16;
    assert Pow2(6) == 64;
  }

  lemma {:induction false} BitsInjective(a: seq<Byte>, b: seq<Byte>)
    requires |a| == |b| && Bits(a) == Bits(b)
    ensures a == b
    decreases |a|
  {
    hide LowBits;
    if a != [] {
      assert Bits(a)[..8] == LowBits(a[0], 8) && Bits(b)[..8] == LowBits(b[0], 8);
      assert Bits(a)[8..] == Bits(a[1..]) && Bits(b)[8..] == Bits(b[1..]);
      EightBits();
      LowBitsInjective(a[0], b[0], 8);
      BitsInjective(a[1..], b[1..]);
      assert a == [a[0]] + a[1..] && b == [b[0]] + b[1..];
    }
  }

  lemma MiddleOf(p: seq<bool>, q: seq<bool>, r: seq<bool>)
    ensures (p + q + r)[|p|..|p| + |q|] == q
  {
  }

  lemma BitsSlice(b: seq<Byte>, x: nat, y: nat)
    requires x <= y <= |b|
    ensures Bits(b[x..y]) == Bits(b)[8 * x..8 * y]
  {
    hide Bits;
    var p, q, r := b[..x], b[x..y], b[y..];
    assert b == p + q + r;
    BitsConcat(p + q, r);
    BitsConcat(p, q);
    MiddleOf(Bits(p), Bits(q), Bits(r));
  }

  lemma {:induction false} LowBitsOfFlipped(a: seq<bool>)
    ensures forall i :: 0 <= i < |a| ==> LowBits(Flipped(a), |a|)[i] == !a[i]
    decreases |a|
  {
    if a != [] {
      LowBitsOfFlipped(a[1..]);
      var x := Flipped(a);
      assert x / 2 == Flipped(a[1..]) && (x % 2 == 1) == !a[0];
      assert LowBits(x, |a|) == [!a[0]] + LowBits(Flipped(a[1..]), |a| - 1);
      hide Flipped, LowBits;
    }
  }

  /** The bits of the trailer are the complements of the bits of the register. */
  lemma {:induction false} BitsOfPack(a: seq<bool>)
    requires |a| % 8 == 0
    ensures |Bits(Pack(a))| == |a| && forall i :: 0 <= i < |a| ==> Bits(Pack(a))[i] == !a[i]
    decreases |a|
  {
    hide Flipped, LowBits;
    if |a| >= 8 {
      var byte, rest := Flipped(a[..8]), a[8..];
      BitsOfPack(rest);
      LowBitsOfFlipped(a[..8]);
      assert Pack(a) == [byte] + Pack(rest) && ([byte] + Pack(rest))[1..] == Pack(rest);
      assert Bits(Pack(a)) == LowBits(byte, 8) + Bits(Pack(rest));
      hide Pack, Bits;
    }
  }

  // ------------------------------------------------------------------ the checksum of a damaged message

  /** a and b have the same length and agree outside the n positions from i on. */
  predicate DifferWithin<T(==)>(a: seq<T>, b: seq<T>, i: nat, n: nat) {
    |b| == |a| && i + n <= |a| && forall j :: 0 <= j < |a| && (j < i || i + n <= j) ==> b[j] == a[j]
  }

  /**
   Two messages that share their first bits and then differ in w and v only, with registers that
   agree where the burst cannot reach any more, are equal.
   */
  lemma RegisterBurst(p: seq<bool>, w: seq<bool>, v: seq<bool>, rest: seq<bool>, m: nat)
    requires |w| == |v| && |w| + m <= 32 && (rest == [] || m == 0)
    requires forall j :: m <= j < 32 ==> Absorb(Initial(), p + w + rest)[j] == Absorb(Initial(), p + v + rest)[j]
    ensures w == v
  {
    hide Absorb, BitStep, Initial;
    var s := Absorb(Initial(), p);
    AbsorbConcat(Initial(), p + w, rest);
    AbsorbConcat(Initial(), p + v, rest);
    AbsorbConcat(Initial(), p, w);
    AbsorbConcat(Initial(), p, v);
    var a, b := Absorb(s, w), Absorb(s, v);
    if m == 0 {
      assert Absorb(a, rest) == Absorb(b, rest);
      AbsorbInjective(a, b, rest);
    } else {
      assert p + w + rest == p + w && p + v + rest == p + v;
    }
    Backtrack(s, w, s, v);
  }

  /** A message is followed by its checksum. */
  predicate IsCodeword(f: seq<Byte>) {
    |f| >= 4 && f[|f| - 4..] == Crc(f[..|f| - 4])
  }

  /** Its bits: those of the message, then the complement of the register they lead to. */
  lemma CodewordBits(f: seq<Byte>) returns (m: seq<bool>, t: seq<bool>)
    requires IsCodeword(f)
    ensures Bits(f) == m + t && |m| == 8 * (|f| - 4) && |t| == 32
    ensures forall j :: 0 <= j < 32 ==> t[j] == !Absorb(Initial(), m)[j]
  {
    hide Bits, Absorb, Pack, Initial;
    var k := |f| - 4;
    m, t := Bits(f[..k]), Bits(f[k..]);
    BitsConcat(f[..k], f[k..]);
    assert f == f[..k] + f[k..];
    BitsOfPack(Absorb(Initial(), m));
  }

  lemma DifferInParts(m: seq<bool>, t: seq<bool>, m': seq<bool>, t': seq<bool>, i: nat, n: nat)
    requires |m| == |m'| && |t| == |t'| && DifferWithin(m + t, m' + t', i, n)
    ensures forall j :: 0 <= j < |m| && (j < i || i + n <= j) ==> m'[j] == m[j]
    ensures forall j :: 0 <= j < |t| && i + n - |m| <= j ==> t'[j] == t[j]
  {
    assert forall j :: 0 <= j < |m| ==> (m + t)[j] == m[j] && (m' + t')[j] == m'[j];
    forall j | 0 <= j < |t| && i + n - |m| <= j
      ensures t'[j] == t[j]
    {
      assert (m + t)[|m| + j] == t[j] && (m' + t')[|m| + j] == t'[j];
    }
  }

  lemma ThreeParts(f: seq<bool>, i: nat, e: nat, c: nat)
    requires i <= e <= c <= |f|
    ensures f[..c] == f[..i] + f[i..e] + f[e..c]
  {
  }

  lemma MessageBurst(a: seq<bool>, b: seq<bool>, i: nat, n: nat)
    requires |a| == |b| && n <= 32
    requires forall j :: 0 <= j < |a| && (j < i || i + n <= j) ==> b[j] == a[j]
    requires forall j :: 0 <= j < 32 && i + n - |a| <= j ==> Absorb(Initial(), a)[j] == Absorb(Initial(), b)[j]
    ensures a == b
  {
    hide Absorb, Initial;
    var c := |a|;
    if i < c {
      var e := if i + n <= c then i + n else c;
      var m := if i + n <= c then 0 else i + n - c;
      var p, rest := a[..i], a[e..c];
      assert b[..i] == p && b[e..c] == rest;
      ThreeParts(a, i, e, c);
      ThreeParts(b, i, e, c);
      assert a[..c] == a && b[..c] == b;
      RegisterBurst(p, a[i..e], b[i..e], rest, m);
    }
  }

  /** A message followed by its checksum, damaged within at most 32 consecutive bits, shows it. */
  lemma CodewordBurst(f: seq<Byte>, g: seq<Byte>, i: nat, n: nat)
    requires IsCodeword(f) && IsCodeword(g) && n <= 32 && |g| == |f| && DifferWithin(Bits(f), Bits(g), i, n)
    ensures g == f
  {
    hide Bits, Absorb, IsCodeword, Initial, DifferWithin;
    var a, t := CodewordBits(f);
    var b, u := CodewordBits(g);
    DifferInParts(a, t, b, u, i, n);
    MessageBurst(a, b, i, n);
    assert t == u;
    BitsInjective(f, g);
  }

  // ------------------------------------------------------------------ frames

  lemma HeaderFieldsEqual(kind: RecordType, txid: U64, keyLen: nat, payloadLen: nat, r: Rec)
    requires keyLen <= MAX_KEY_LEN && payloadLen <= MAX_PAYLOAD_LEN
    requires HeaderOf(kind, txid, keyLen, payloadLen)[16..24] == Header(r)[16..24]
    ensures keyLen == |r.key| && payloadLen == |r.payload|
  {
    hide LE, HeaderOf, FromLE, Pow256;
    HeaderSlices(kind, txid, keyLen, payloadLen);
    HeaderSlices(r.kind, r.txid, |r.key|, |r.payload|);
    var h, k := HeaderOf(kind, txid, keyLen, payloadLen), Header(r);
    assert h[16..24][..4] == h[16..20] && k[16..24][..4] == k[16..20];
    assert h[16..24][4..] == h[20..24] && k[16..24][4..] == k[20..24];
    Powers();
    FromLEInvertsLE(keyLen, 4);
    FromLEInvertsLE(payloadLen, 4);
    FromLEInvertsLE(|r.key|, 4);
    FromLEInvertsLE(|r.payload|, 4);
  }

  lemma SliceUndamaged(f: seq<Byte>, g: seq<Byte>, i: nat, n: nat, x: nat, y: nat)
    requires |g| == |f| && DifferWithin(Bits(f), Bits(g), i, n) && x <= y <= |f| && (8 * y <= i || i + n <= 8 * x)
    ensures g[x..y] == f[x..y]
  {
    hide Bits;
    BitsSlice(f, x, y);
    BitsSlice(g, x, y);
    assert Bits(f)[8 * x..8 * y] == Bits(g)[8 * x..8 * y];
    BitsInjective(f[x..y], g[x..y]);
  }

  lemma TrailerSlices(g: seq<Byte>, c: nat)
    requires |g| == c + CRC_LEN
    ensures g[0..c] == g[..c] && g[c..c + CRC_LEN] == g[c..]
  {
  }

  lemma FrameParts(r: Rec)
    ensures var f := Frame(r);
      && |f| == RecordWireSize(|r.key|, |r.payload|) && f[0..24] == Header(r) && f[16..24] == Header(r)[16..24]
      && f[|f| - 4..] == Crc(f[..|f| - 4])
  {
    hide Crc, HeaderOf;
    var f := Frame(r);
    assert f[..|f| - 4] == Body(r);
    assert f[0..24] == Body(r)[0..24] == Header(r);
    assert f[0..24][16..24] == f[16..24];
  }

  lemma HeaderWithTxid(h: seq<Byte>, k: seq<Byte>, txid: U64, r: Rec)
    requires |h| == 24 && k == Header(r) && h[0..8] == k[0..8] && h[16..24] == k[16..24] && h[8..16] == LE(txid, 8)
    ensures h == HeaderOf(r.kind, txid, |r.key|, |r.payload|)
  {
    hide LE;
    var a := MAGIC + LE(WIRE_VERSION, 2) + [r.kind.AsByte(), 0];
    var b := LE(|r.key|, 4) + LE(|r.payload|, 4);
    assert k == a + LE(r.txid, 8) + b;
    assert k[0..8] == a && k[16..24] == b;
    assert h == h[0..8] + h[8..16] + h[16..24];
    assert HeaderOf(r.kind, txid, |r.key|, |r.payload|) == a + LE(txid, 8) + b;
  }

  /** With the first eight bytes and the lengths intact, the header still parses. */
  lemma SamePrefixParses(r: Rec, g: seq<Byte>)
    requires |g| == |Frame(r)| && g[0..8] == Frame(r)[0..8] && g[16..24] == Frame(r)[16..24]
    ensures DecodeNext(g, 0).Ok?
  {
    hide Crc, LE, FromLE, Pow256, Frame, DecodeBody;
    FrameParts(r);
    var h, k := g[0..24], Header(r);
    HeaderSlices(r.kind, r.txid, |r.key|, |r.payload|);
    LEInvertsFromLE(h[8..16]);
    Powers();
    var txid := FromLE(h[8..16]);
    assert h[0..8] == g[0..8] && k[0..8] == Frame(r)[0..8] && h[16..24] == k[16..24];
    HeaderWithTxid(h, k, txid, r);
    HeaderParses(g, 0, r.kind, txid, |r.key|, |r.payload|);
    BodyIsOk(g, r.kind, txid, |r.key|, |r.payload|);
  }

  /**
   Burst detection. Damage a frame within at most 32 consecutive bits, in the order in which they
   are absorbed, anywhere but in its two length fields: it is never decoded. Unless the damage
   touches the magic, version, type or flags, where the parser may object first, the verdict is a
   CRC mismatch of the frame's own size.
   */
  lemma BurstIsDetected(r: Rec, g: seq<Byte>, i: nat, n: nat)
    requires |g| == |Frame(r)| && DifferWithin(Bits(Frame(r)), Bits(g), i, n) && n <= 32 && g != Frame(r)
    requires i + n <= 128 || i >= 192
    ensures DecodeNext(g, 0).Err? || DecodeNext(g, 0) == Ok(CrcMismatch(|Frame(r)|))
    ensures i >= 64 ==> DecodeNext(g, 0) == Ok(CrcMismatch(|Frame(r)|))
  {
    hide Crc, LE, FromLE, Pow256, Frame, HeaderOf, DecodeNext, Bits, DifferWithin;
    FrameParts(r);
    var f := Frame(r);
    SliceUndamaged(f, g, i, n, 16, 24);
    if i >= 64 {
      SliceUndamaged(f, g, i, n, 0, 8);
      SamePrefixParses(r, g);
    }
    if DecodeNext(g, 0).Ok? {
      var kind, txid, keyLen, payloadLen := ParsedHeader(g, 0);
      assert HeaderOf(kind, txid, keyLen, payloadLen)[16..24] == g[0..24][16..24] == g[16..24];
      HeaderFieldsEqual(kind, txid, keyLen, payloadLen, r);
      var c := |f| - 4;
      if g[c..] == Crc(g[..c]) {
        CodewordBurst(f, g, i, n);
        assert false;
      }
      TrailerSlices(g, c);
    }
  }

  /** The same of a frame anywhere inside a larger buffer. */
  lemma BurstInBuffer(r: Rec, buf: seq<Byte>, offset: nat, i: nat, n: nat)
    requires offset + |Frame(r)| <= |buf| && n <= 32 && (i + n <= 128 || i >= 192)
    requires var g := buf[offset..offset + |Frame(r)|]; g != Frame(r) && DifferWithin(Bits(Frame(r)), Bits(g), i, n)
    ensures DecodeNext(buf, offset).Err? || DecodeNext(buf, offset) == Ok(CrcMismatch(|Frame(r)|))
    ensures i >= 64 ==> DecodeNext(buf, offset) == Ok(CrcMismatch(|Frame(r)|))
  {
    hide Frame, DecodeNext, Bits, DifferWithin;
    var g, more := buf[offset..offset + |Frame(r)|], buf[offset + |Frame(r)|..];
    BurstIsDetected(r, g, i, n);
    DecodeIsStable(g, more);
    DecodeIsLocal(buf, offset);
    assert buf[offset..] == g + more;
  }

  /** Any change within four consecutive bytes is such a burst. */
  lemma BytesAreBits(f: seq<Byte>, g: seq<Byte>, i: nat, n: nat)
    requires DifferWithin(f, g, i, n)
    ensures DifferWithin(Bits(f), Bits(g), 8 * i, 8 * n)
  {
    hide Bits;
    var x, y, z := Bits(f), Bits(g), i + n;
    BitsSlice(f, 0, i);
    BitsSlice(g, 0, i);
    BitsSlice(f, z, |f|);
    BitsSlice(g, z, |g|);
    assert f[0..i] == g[0..i] && f[z..|f|] == g[z..|g|];
    assert forall j :: 0 <= j < 8 * i ==> x[j] == x[0..8 * i][j] && y[j] == y[0..8 * i][j];
    assert forall j :: 8 * z <= j < 8 * |f| ==> x[j] == x[8 * z..8 * |f|][j - 8 * z] && y[j] == y[8 * z..8 * |g|][j - 8 * z];
  }
  /** So no change of at most four consecutive bytes outside the length fields is decoded. */
  lemma ByteBurstIsDetected(r: Rec, g: seq<Byte>, i: nat, n: nat)
    requires |g| == |Frame(r)| && g != Frame(r) && n <= 4 && i + n <= |g| && (i + n <= 16 || i >= 24)
    requires forall j :: 0 <= j < |g| && (j < i || i + n <= j) ==> g[j] == Frame(r)[j]
    ensures DecodeNext(g, 0).Err? || DecodeNext(g, 0) == Ok(CrcMismatch(|g|))
    ensures i >= 8 ==> DecodeNext(g, 0) == Ok(CrcMismatch(|g|))
  {
    hide Frame, DecodeNext, Bits;
    assert DifferWithin(Frame(r), g, i, n);
    hide DifferWithin;
    BytesAreBits(Frame(r), g, i, n);
    BurstIsDetected(r, g, 8 * i, 8 * n);
  }
}
