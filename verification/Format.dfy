/**
 The wire format: one record is a 24-byte header, the key, the payload, and the CRC-32C of
 everything before it.
 */
module Format {
  import opened Bytes
  import opened Crc32c

  const MAGIC: seq<Byte> := [0x44, 0x57, 0x41, 0x4C]
  const WIRE_VERSION: nat := 1
  const HEADER_LEN: nat := 24
  const CRC_LEN: nat := 4
  const MAX_KEY_LEN: nat := 0x1_0000
  const MAX_PAYLOAD_LEN: nat := 0x400_0000

  datatype RecordType = Raw | Put | Delete {
    function AsByte(): Byte {
      match this case Raw => 0 case Put => 1 case Delete => 2
    }

    static function FromByte(b: Byte): Option<RecordType> {
      match b case 0 => Some(Raw) case 1 => Some(Put) case 2 => Some(Delete) case _ => None
    }
  }

  /** Keys and payloads within the caps of the format: exactly those the encoder accepts. */
  type Key = s: seq<Byte> | |s| <= MAX_KEY_LEN
  type Payload = s: seq<Byte> | |s| <= MAX_PAYLOAD_LEN

  datatype Rec = Rec(kind: RecordType, txid: U64, key: Key, payload: Payload)

  function RecordWireSize(keyLen: nat, payloadLen: nat): nat {
    HEADER_LEN + keyLen + payloadLen + CRC_LEN
  }

  // ------------------------------------------------------------------ the printer

  function HeaderOf(kind: RecordType, txid: U64, keyLen: nat, payloadLen: nat): (h: seq<Byte>)
    ensures |h| == HEADER_LEN
  {
    MAGIC + LE(WIRE_VERSION, 2) + [kind.AsByte(), 0] + LE(txid, 8) + LE(keyLen, 4) + LE(payloadLen, 4)
  }

  function Header(r: Rec): (h: seq<Byte>)
    ensures |h| == HEADER_LEN
  {
    HeaderOf(r.kind, r.txid, |r.key|, |r.payload|)
  }

  function Body(r: Rec): (b: seq<Byte>)
    ensures |b| == HEADER_LEN + |r.key| + |r.payload|
  {
    Header(r) + r.key + r.payload
  }

  function Frame(r: Rec): (f: seq<Byte>)
    ensures |f| == RecordWireSize(|r.key|, |r.payload|)
  {
    Body(r) + Crc(Body(r))
  }

  datatype EncodeError = KeyOverCap | PayloadOverCap

  method EncodeRecord(kind: RecordType, txid: U64, key: seq<Byte>, payload: seq<Byte>)
    returns (r: Result<seq<Byte>, EncodeError>)
    ensures r.Err? && r.error.KeyOverCap? <==> |key| > 65_536
    ensures r.Err? && r.error.PayloadOverCap? <==> |key| <= 65_536 && |payload| > 67_108_864
    ensures r.Ok? ==> r.value == Frame(Rec(kind, txid, key, payload))
  {
    if |key| > MAX_KEY_LEN {
      return Err(KeyOverCap);
    }
    if |payload| > MAX_PAYLOAD_LEN {
      return Err(PayloadOverCap);
    }
    var buf := [];
    buf := buf + MAGIC;
    buf := buf + LE(WIRE_VERSION, 2);
    buf := buf + [kind.AsByte()];
    buf := buf + [0];
    buf := buf + LE(txid, 8);
    buf := buf + LE(|key|, 4);
    buf := buf + LE(|payload|, 4);
    assert buf == Header(Rec(kind, txid, key, payload));
    buf := buf + key;
    buf := buf + payload;
    buf := buf + Crc(buf);
    return Ok(buf);
  }

  // ------------------------------------------------------------------ the parser

  datatype DecodeOutcome =
    | Decoded(rec: Rec, bytesConsumed: nat)
    | Truncated(available: nat, needed: nat)
    | CrcMismatch(bytesConsumed: nat)

  datatype DecodeError =
    | BadMagic(found: seq<Byte>)
    | UnknownVersion(version: nat)
    | UnknownRecordType(byte: Byte)
    | ReservedFlagsSet(flags: Byte)
    | KeyTooLarge(len: nat)
    | PayloadTooLarge(len: nat)

  type Decode = Result<DecodeOutcome, DecodeError>

  function DecodeBody(buf: seq<Byte>, offset: nat, kind: RecordType, txid: U64, keyLen: nat, payloadLen: nat): Decode
    requires offset <= |buf| && keyLen <= MAX_KEY_LEN && payloadLen <= MAX_PAYLOAD_LEN
  {
    var total := RecordWireSize(keyLen, payloadLen);
    if offset + total > |buf| then
      Ok(Truncated(|buf| - offset, total))
    else
      var keyStart := offset + HEADER_LEN;
      var payloadStart := keyStart + keyLen;
      var crcStart := payloadStart + payloadLen;
      if Crc(buf[offset..crcStart]) != buf[crcStart..crcStart + CRC_LEN] then
        Ok(CrcMismatch(total))
      else
        Ok(Decoded(Rec(kind, txid, buf[keyStart..payloadStart], buf[payloadStart..crcStart]), total))
  }

  function DecodeHeader(buf: seq<Byte>, offset: nat): Decode
    requires offset + HEADER_LEN <= |buf|
  {
    var header := buf[offset..offset + HEADER_LEN];
    if header[0..4] != MAGIC then
      Err(BadMagic(header[0..4]))
    else if FromLE(header[4..6]) != WIRE_VERSION then
      Err(UnknownVersion(FromLE(header[4..6])))
    else if RecordType.FromByte(header[6]).None? then
      Err(UnknownRecordType(header[6]))
    else if header[7] != 0 then
      Err(ReservedFlagsSet(header[7]))
    else
      var txid := FromLE(header[8..16]);
      var keyLen := FromLE(header[16..20]);
      var payloadLen := FromLE(header[20..24]);
      if keyLen > MAX_KEY_LEN then
        Err(KeyTooLarge(keyLen))
      else if payloadLen > MAX_PAYLOAD_LEN then
        Err(PayloadTooLarge(payloadLen))
      else
        LEInvertsFromLE(header[8..16]);
        Powers();
        DecodeBody(buf, offset, RecordType.FromByte(header[6]).value, txid, keyLen, payloadLen)
  }

  function DecodeNext(buf: seq<Byte>, offset: nat): Decode {
    if offset + HEADER_LEN > |buf| then
      Ok(Truncated(if |buf| < offset then 0 else |buf| - offset, HEADER_LEN))
    else
      DecodeHeader(buf, offset)
  }

  // ------------------------------------------------------------------ exactness

  lemma FrameLength(r: Rec)
    ensures |Frame(r)| == HEADER_LEN + |r.key| + |r.payload| + CRC_LEN && Frame(r) != []
  {
  }

  lemma HeaderSlices(kind: RecordType, txid: U64, keyLen: nat, payloadLen: nat)
    ensures var h := HeaderOf(kind, txid, keyLen, payloadLen);
      && h[0..4] == MAGIC && h[4..6] == LE(WIRE_VERSION, 2) && h[6] == kind.AsByte() && h[7] == 0
      && h[8..16] == LE(txid, 8) && h[16..20] == LE(keyLen, 4) && h[20..24] == LE(payloadLen, 4)
  {
    hide LE;
    var a := MAGIC + LE(WIRE_VERSION, 2) + [kind.AsByte(), 0];
    var h := a + LE(txid, 8) + LE(keyLen, 4) + LE(payloadLen, 4);
    assert h[..8] == a && a[4..6] == LE(WIRE_VERSION, 2);
    assert h[8..16] == LE(txid, 8);
  }

  /** A header printed from fields within the caps parses to those fields. */
  lemma HeaderParses(buf: seq<Byte>, offset: nat, kind: RecordType, txid: U64, keyLen: nat, payloadLen: nat)
    requires offset + HEADER_LEN <= |buf| && keyLen <= MAX_KEY_LEN && payloadLen <= MAX_PAYLOAD_LEN
    requires buf[offset..offset + HEADER_LEN] == HeaderOf(kind, txid, keyLen, payloadLen)
    ensures DecodeNext(buf, offset) == DecodeBody(buf, offset, kind, txid, keyLen, payloadLen)
  {
    hide Crc, LE, FromLE, Pow256;
    HeaderSlices(kind, txid, keyLen, payloadLen);
    Powers();
    FromLEInvertsLE(WIRE_VERSION, 2);
    FromLEInvertsLE(txid, 8);
    FromLEInvertsLE(keyLen, 4);
    FromLEInvertsLE(payloadLen, 4);
  }

  /** Behind a header that parses, nothing is a structural error. */
  lemma BodyIsOk(g: seq<Byte>, kind: RecordType, txid: U64, keyLen: nat, payloadLen: nat)
    requires keyLen <= MAX_KEY_LEN && payloadLen <= MAX_PAYLOAD_LEN
    ensures DecodeBody(g, 0, kind, txid, keyLen, payloadLen).Ok?
  {
    hide Crc;
  }

  /** A header that parses without a structural error was printed from the parsed fields. */
  lemma ParsedHeader(buf: seq<Byte>, offset: nat)
    returns (kind: RecordType, txid: U64, keyLen: nat, payloadLen: nat)
    requires offset + HEADER_LEN <= |buf| && DecodeNext(buf, offset).Ok?
    ensures keyLen <= MAX_KEY_LEN && payloadLen <= MAX_PAYLOAD_LEN
    ensures buf[offset..offset + HEADER_LEN] == HeaderOf(kind, txid, keyLen, payloadLen)
    ensures DecodeNext(buf, offset) == DecodeBody(buf, offset, kind, txid, keyLen, payloadLen)
  {
    hide Crc, LE, FromLE, Pow256;
    var h := buf[offset..offset + HEADER_LEN];
    Powers();
    LEInvertsFromLE(h[4..6]);
    LEInvertsFromLE(h[8..16]);
    LEInvertsFromLE(h[16..20]);
    LEInvertsFromLE(h[20..24]);
    kind, txid := RecordType.FromByte(h[6]).value, FromLE(h[8..16]);
    keyLen, payloadLen := FromLE(h[16..20]), FromLE(h[20..24]);
    assert h == h[0..4] + h[4..6] + [h[6], h[7]] + h[8..16] + h[16..20] + h[20..24];
  }

  predicate StartsAt(buf: seq<Byte>, offset: nat, part: seq<Byte>) {
    offset + |part| <= |buf| && buf[offset..offset + |part|] == part
  }

  /** The parser looks only at the bytes from the offset on. */
  lemma DecodeIsLocal(buf: seq<Byte>, offset: nat)
    requires offset <= |buf|
    ensures DecodeNext(buf, offset) == DecodeNext(buf[offset..], 0)
  {
    hide Crc, LE, FromLE, Pow256;
    var b := buf[offset..];
    if HEADER_LEN <= |b| {
      assert b[0..HEADER_LEN] == buf[offset..offset + HEADER_LEN];
      assert forall i, j :: 0 <= i <= j <= |b| ==> b[i..j] == buf[offset + i..offset + j];
    }
  }

  lemma Slices(b: seq<Byte>, h: seq<Byte>, k: seq<Byte>, p: seq<Byte>, c: seq<Byte>, rest: seq<Byte>)
    requires b == h + k + p + c + rest
    ensures var i, j, n := |h| + |k|, |h| + |k| + |p|, |h| + |k| + |p| + |c|;
      && b[0..|h|] == h && b[|h|..i] == k && b[i..j] == p && b[j..n] == c && b[n..] == rest
      && b[0..j] == h + k + p && b[0..n] == h + k + p + c
  {
  }

  lemma BodyDecodes(b: seq<Byte>, r: Rec, rest: seq<Byte>)
    requires b == Frame(r) + rest
    ensures DecodeBody(b, 0, r.kind, r.txid, |r.key|, |r.payload|) == Ok(Decoded(r, |Frame(r)|))
  {
    hide Crc, LE, FromLE, Pow256;
    Slices(b, Header(r), r.key, r.payload, Crc(Body(r)), rest);
  }

  lemma FrameDecodes(buf: seq<Byte>, offset: nat, r: Rec)
    requires StartsAt(buf, offset, Frame(r))
    ensures DecodeNext(buf, offset) == Ok(Decoded(r, |Frame(r)|))
  {
    hide Crc, LE, FromLE, Pow256;
    var b, n := buf[offset..], |Frame(r)|;
    assert b == Frame(r) + b[n..] by {
      assert b[..n] == buf[offset..offset + n];
    }
    BodyDecodes(b, r, b[n..]);
    assert b[0..HEADER_LEN] == Header(r);
    HeaderParses(b, 0, r.kind, r.txid, |r.key|, |r.payload|);
    DecodeIsLocal(buf, offset);
  }

  lemma BodyIsFrame(b: seq<Byte>, kind: RecordType, txid: U64, keyLen: nat, payloadLen: nat, r: Rec, n: nat)
    requires HEADER_LEN <= |b| && keyLen <= MAX_KEY_LEN && payloadLen <= MAX_PAYLOAD_LEN
    requires b[0..HEADER_LEN] == HeaderOf(kind, txid, keyLen, payloadLen)
    requires DecodeBody(b, 0, kind, txid, keyLen, payloadLen) == Ok(Decoded(r, n))
    ensures n == |Frame(r)| <= |b| && b[..n] == Frame(r)
  {
    hide Crc, LE, FromLE, Pow256;
    var payloadStart := HEADER_LEN + keyLen;
    var crcStart := payloadStart + payloadLen;
    var h, k, p, c := b[0..HEADER_LEN], b[HEADER_LEN..payloadStart], b[payloadStart..crcStart], b[crcStart..crcStart + 4];
    assert b == h + k + p + c + b[crcStart + 4..];
    Slices(b, h, k, p, c, b[crcStart + 4..]);
  }

  /** What the parser accepts is byte for byte what the printer emits. */
  lemma DecodedIsFrame(buf: seq<Byte>, offset: nat, r: Rec, n: nat)
    requires DecodeNext(buf, offset) == Ok(Decoded(r, n))
    ensures n == |Frame(r)| && StartsAt(buf, offset, Frame(r))
  {
    hide Crc, LE, FromLE, Pow256;
    DecodeIsLocal(buf, offset);
    var b := buf[offset..];
    var kind, txid, keyLen, payloadLen := ParsedHeader(b, 0);
    BodyIsFrame(b, kind, txid, keyLen, payloadLen, r, n);
    assert b[..n] == buf[offset..offset + n];
  }

  /** Anywhere inside any buffer, the parser returns r exactly where the frame of r stands. */
  lemma DecodedIff(buf: seq<Byte>, offset: nat, r: Rec)
    ensures DecodeNext(buf, offset) == Ok(Decoded(r, |Frame(r)|)) <==> StartsAt(buf, offset, Frame(r))
  {
    hide Crc, LE, FromLE, Pow256;
    if StartsAt(buf, offset, Frame(r)) {
      FrameDecodes(buf, offset, r);
    }
    if DecodeNext(buf, offset) == Ok(Decoded(r, |Frame(r)|)) {
      DecodedIsFrame(buf, offset, r, |Frame(r)|);
    }
  }

  /** A frame cut short anywhere decodes to Truncated, never to a structural error. */
  lemma TornFrameIsTruncated(buf: seq<Byte>, offset: nat, r: Rec)
    requires offset <= |buf| && buf[offset..] < Frame(r)
    ensures DecodeNext(buf, offset) == Ok(Truncated(|buf| - offset,
      if |buf| - offset < HEADER_LEN then HEADER_LEN else |Frame(r)|))
  {
    hide Crc, LE, FromLE, Pow256;
    if |buf| - offset >= HEADER_LEN {
      assert buf[offset..offset + HEADER_LEN] == buf[offset..][..HEADER_LEN] == Frame(r)[..HEADER_LEN] == Header(r);
      HeaderParses(buf, offset, r.kind, r.txid, |r.key|, |r.payload|);
    }
  }

  /** Bytes that arrive later do not change a verdict other than Truncated. */
  lemma DecodeIsStable(b: seq<Byte>, more: seq<Byte>)
    requires DecodeNext(b, 0).Ok? ==> !DecodeNext(b, 0).value.Truncated?
    ensures DecodeNext(b + more, 0) == DecodeNext(b, 0)
  {
    hide Crc, LE, FromLE, Pow256;
    assert forall i, j :: 0 <= i <= j <= |b| ==> (b + more)[i..j] == b[i..j];
  }

  // ------------------------------------------------------------------ in numbers

  lemma VersionBytes()
    ensures LE(WIRE_VERSION, 2) == [1, 0]
  {
    assert LE(0, 1) == [0] + LE(0, 0);
  }

  /** A frame in numbers. */
  lemma FrameLayout(r: Rec)
    ensures var f, k, p := Frame(r), 24 + |r.key|, 24 + |r.key| + |r.payload|;
      && |f| == p + 4
      && f[0..8] == [0x44, 0x57, 0x41, 0x4C, 1, 0, match r.kind case Raw => 0 case Put => 1 case Delete => 2, 0]
      && f[8] as int + 0x100 * f[9] as int + 0x1_0000 * f[10] as int + 0x100_0000 * f[11] as int + 0x1_0000_0000 * f[12] as int
         + 0x100_0000_0000 * f[13] as int + 0x1_0000_0000_0000 * f[14] as int + 0x100_0000_0000_0000 * f[15] as int == r.txid
      && f[16] as int + 0x100 * f[17] as int + 0x1_0000 * f[18] as int + 0x100_0000 * f[19] as int == |r.key|
      && f[20] as int + 0x100 * f[21] as int + 0x1_0000 * f[22] as int + 0x100_0000 * f[23] as int == |r.payload|
      && f[24..k] == r.key && f[k..p] == r.payload && f[p..] == Crc(f[..p])
  {
    hide Crc, LE, FromLE, Pow256;
    var f, h, b := Frame(r), Header(r), Body(r);
    Slices(f, h, r.key, r.payload, Crc(b), []);
    HeaderSlices(r.kind, r.txid, |r.key|, |r.payload|);
    VersionBytes();
    assert f[0..8] == h[0..4] + h[4..6] + [h[6], h[7]];
    Powers();
    FromLEInvertsLE(r.txid, 8);
    FromLEInvertsLE(|r.key|, 4);
    FromLEInvertsLE(|r.payload|, 4);
    EightBytes(h[8..16]);
    FourBytes(h[16..20]);
    FourBytes(h[20..24]);
  }

  lemma SliceOfSlice(buf: seq<Byte>, offset: nat, f: seq<Byte>, i: nat, j: nat)
    requires StartsAt(buf, offset, f) && i <= j <= |f|
    ensures buf[offset + i..offset + j] == f[i..j]
  {
    var g := buf[offset..offset + |f|];
    assert forall x :: i <= x < j ==> g[x] == buf[offset + x];
  }

  /** Whatever bytes decode to a record have this layout. */
  lemma DecodedLayout(buf: seq<Byte>, offset: nat, r: Rec, n: nat)
    requires DecodeNext(buf, offset) == Ok(Decoded(r, n))
    ensures n == 28 + |r.key| + |r.payload| && offset + n <= |buf|
    ensures buf[offset + 6] == match r.kind case Raw => 0 case Put => 1 case Delete => 2
    ensures buf[offset + 24..offset + 24 + |r.key|] == r.key
    ensures buf[offset + 24 + |r.key|..offset + n - 4] == r.payload
  {
    hide Frame, DecodeNext, Crc, LE;
    DecodedIsFrame(buf, offset, r, n);
    FrameLayout(r);
    var f, k := Frame(r), 24 + |r.key|;
    assert buf[offset + 6] == f[6] == f[0..8][6];
    SliceOfSlice(buf, offset, f, 24, k);
    SliceOfSlice(buf, offset, f, k, n - 4);
  }

  /** What the parser says of any bytes, in numbers: its checks in their order, and its counts. */
  lemma DecodeVerdict(buf: seq<Byte>, offset: nat)
    ensures |buf| < offset + 24 ==>
      DecodeNext(buf, offset) == Ok(Truncated(if |buf| < offset then 0 else |buf| - offset, 24))
    ensures offset + 24 <= |buf| ==>
      var d, b := DecodeNext(buf, offset), buf[offset..];
      var keyLen := b[16] as int + 0x100 * b[17] as int + 0x1_0000 * b[18] as int + 0x100_0000 * b[19] as int;
      var payloadLen := b[20] as int + 0x100 * b[21] as int + 0x1_0000 * b[22] as int + 0x100_0000 * b[23] as int;
      var total := 28 + keyLen + payloadLen;
      if b[0..4] != [0x44, 0x57, 0x41, 0x4C] then d == Err(BadMagic(b[0..4]))
      else if b[4] != 1 || b[5] != 0 then d == Err(UnknownVersion(b[4] as int + 0x100 * b[5] as int))
      else if b[6] > 2 then d == Err(UnknownRecordType(b[6]))
      else if b[7] != 0 then d == Err(ReservedFlagsSet(b[7]))
      else if keyLen > 65_536 then d == Err(KeyTooLarge(keyLen))
      else if payloadLen > 67_108_864 then d == Err(PayloadTooLarge(payloadLen))
      else if |b| < total then d == Ok(Truncated(|b|, total))
      else if b[total - 4..total] != Crc(b[0..total - 4]) then d == Ok(CrcMismatch(total))
      else d.Ok? && d.value.Decoded? && d.value.bytesConsumed == total && Frame(d.value.rec) == b[..total]
  {
    hide Crc, LE, FromLE, Pow256, Frame;
    if offset + 24 <= |buf| {
      var d, b := DecodeNext(buf, offset), buf[offset..];
      DecodeIsLocal(buf, offset);
      var h := b[0..24];
      TwoBytes(h[4..6]);
      FourBytes(h[16..20]);
      FourBytes(h[20..24]);
      assert h[0..4] == b[0..4];
      if d.Ok? && d.value.Decoded? {
        DecodedIsFrame(b, 0, d.value.rec, d.value.bytesConsumed);
      }
    }
  }
}
