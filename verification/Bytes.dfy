/** Bytes, the unsigned integers of the wire format, and their little-endian form. */
module Bytes {
  const U32_MAX: int := 0xFFFF_FFFF
  const U64_MAX: int := 0xFFFF_FFFF_FFFF_FFFF

  type Byte = x: int | 0 <= x < 256
  type U32 = x: int | 0 <= x <= U32_MAX
  type U64 = x: int | 0 <= x <= U64_MAX

  datatype Option<+T> = None | Some(value: T)
  datatype Result<+T, +E> = Ok(value: T) | Err(error: E)

  /** The n low bytes of x, least significant first. */
  function LE(x: nat, n: nat): (bs: seq<Byte>)
    ensures |bs| == n
  {
    if n == 0 then [] else [x % 256] + LE(x / 256, n - 1)
  }

  function FromLE(bs: seq<Byte>): nat {
    if bs == [] then 0 else bs[0] + 256 * FromLE(bs[1..])
  }

  function Pow256(n: nat): nat {
    if n == 0 then 1 else 256 * Pow256(n - 1)
  }

  lemma {:induction false} FromLEInvertsLE(x: nat, n: nat)
    requires x < Pow256(n)
    ensures FromLE(LE(x, n)) == x
  {
    if n == 0 {
    } else {
      FromLEInvertsLE(x / 256, n - 1);
      assert LE(x, n)[1..] == LE(x / 256, n - 1);
    }
  }

  lemma {:induction false} LEInvertsFromLE(bs: seq<Byte>)
    ensures FromLE(bs) < Pow256(|bs|) && LE(FromLE(bs), |bs|) == bs
  {
    if bs == [] {
    } else {
      LEInvertsFromLE(bs[1..]);
      assert FromLE(bs) % 256 == bs[0] && FromLE(bs) / 256 == FromLE(bs[1..]);
      assert bs == [bs[0]] + bs[1..];
    }
  }

  lemma TwoBytes(bs: seq<Byte>)
    requires |bs| == 2
    ensures FromLE(bs) == bs[0] as int + 0x100 * bs[1] as int
  {
    assert FromLE(bs[1..]) == bs[1] + 256 * FromLE(bs[1..][1..]);
  }

  lemma FourBytes(bs: seq<Byte>)
    requires |bs| == 4
    ensures FromLE(bs) == bs[0] as int + 0x100 * bs[1] as int + 0x1_0000 * bs[2] as int + 0x100_0000 * bs[3] as int
  {
    TwoBytes(bs[2..]);
    assert bs[1..][1..] == bs[2..];
  }

  lemma EightBytes(bs: seq<Byte>)
    requires |bs| == 8
    ensures FromLE(bs)
         == bs[0] as int + 0x100 * bs[1] as int + 0x1_0000 * bs[2] as int + 0x100_0000 * bs[3] as int + 0x1_0000_0000 * bs[4] as int
          + 0x100_0000_0000 * bs[5] as int + 0x1_0000_0000_0000 * bs[6] as int + 0x100_0000_0000_0000 * bs[7] as int
  {
    FourBytes(bs[4..]);
    assert FromLE(bs[2..]) == bs[2] + 256 * FromLE(bs[3..]) by {
      assert bs[2..][1..] == bs[3..];
    }
    assert bs[1..][1..] == bs[2..] && bs[3..][1..] == bs[4..];
  }

  lemma Powers()
    ensures Pow256(2) == 0x1_0000 && Pow256(4) == U32_MAX + 1 && Pow256(8) == U64_MAX + 1
  {
    assert Pow256(3) == 0x100_0000;
    assert Pow256(4) == 0x1_0000_0000;
    assert Pow256(6) == 0x1_0000_0000_0000;
  }
}
