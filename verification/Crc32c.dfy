/**
 CRC-32C as section 12.1 of RFC 3720 defines it, in the bit-serial, reflected form:
 a 32-bit register that starts at all ones, takes the message one bit at a time with
 the low bit of every byte first, and is complemented at the end.
 Registers are sequences of 32 bits, low bit first.
 */
module Crc32c {
  import opened Bytes

  function Zeros(n: nat): (s: seq<bool>)
    ensures |s| == n
  {
    if n == 0 then [] else [false] + Zeros(n - 1)
  }

  type Register = s: seq<bool> | |s| == 32 witness Zeros(32)

  /** The n low bits of x, lowest first. */
  function LowBits(x: nat, n: nat): (bits: seq<bool>)
    ensures |bits| == n
  {
    if n == 0 then [] else [x % 2 == 1] + LowBits(x / 2, n - 1)
  }

  /** The bits of a message in the order in which they are absorbed. */
  function Bits(bs: seq<Byte>): (bits: seq<bool>)
    ensures |bits| == 8 * |bs|
    decreases |bs|
  {
    if bs == [] then [] else LowBits(bs[0], 8) + Bits(bs[1..])
  }

  /** 0x82F63B78, the bit reversal of the polynomial 0x1EDC6F41, low byte first. */
  function Polynomial(): Register {
    Bits([0x78, 0x3B, 0xF6, 0x82])
  }

  function Initial(): Register {
    Bits([0xFF, 0xFF, 0xFF, 0xFF])
  }

  function Xor(s: seq<bool>, t: seq<bool>): (r: seq<bool>)
    requires |s| == |t|
    ensures |r| == |s|
    decreases |s|
  {
    if s == [] then [] else [s[0] != t[0]] + Xor(s[1..], t[1..])
  }

  /** Shift right by one bit; when the bit shifted out is set, add the polynomial. */
  function BitStep(s: Register, bit: bool): Register {
    if s[0] != bit then Xor(s[1..] + [false], Polynomial()) else s[1..] + [false]
  }

  function Absorb(s: Register, bits: seq<bool>): Register
    decreases |bits|
  {
    if bits == [] then s else Absorb(BitStep(s, bits[0]), bits[1..])
  }

  function Pow2(n: nat): nat {
    if n == 0 then 1 else 2 * Pow2(n - 1)
  }

  /** The number whose bits, lowest first, are the complements of the given ones. */
  function Flipped(bits: seq<bool>): (x: nat)
    ensures x < Pow2(|bits|)
    decreases |bits|
  {
    if bits == [] then 0 else (if bits[0] then 0 else 1) + 2 * Flipped(bits[1..])
  }

  /** The complement of the register, packed into bytes from the low end. */
  function Pack(bits: seq<bool>): (bs: seq<Byte>)
    ensures |bs| == |bits| / 8
    decreases |bits|
  {
    if |bits| < 8 then []
    else
      assert Pow2(8) == 2 * (2 * (2 * (2 * Pow2(4)))) && Pow2(4) == 16;
      [Flipped(bits[..8])] + Pack(bits[8..])
  }

  /** The checksum in its little-endian form. */
  function Crc(bs: seq<Byte>): (crc: seq<Byte>)
    ensures |crc| == 4
  {
    Pack(Absorb(Initial(), Bits(bs)))
  }

  // ------------------------------------------------------------------ burst detection

  lemma {:induction false} AbsorbConcat(s: Register, a: seq<bool>, b: seq<bool>)
    ensures Absorb(s, a + b) == Absorb(Absorb(s, a), b)
    decreases |a|
  {
    if a == [] {
      assert a + b == b;
    } else {
      AbsorbConcat(BitStep(s, a[0]), a[1..], b);
      assert (a + b)[1..] == a[1..] + b;
    }
  }

  lemma {:induction false} XorAt(s: seq<bool>, t: seq<bool>)
    requires |s| == |t|
    ensures forall i :: 0 <= i < |s| ==> Xor(s, t)[i] == (s[i] != t[i])
    decreases |s|
  {
    if s != [] {
      XorAt(s[1..], t[1..]);
      assert forall i :: 0 < i < |s| ==> s[i] == s[1..][i - 1] && t[i] == t[1..][i - 1];
    }
  }

  lemma {:induction false} LastLowBit(x: nat, n: nat)
    requires n > 0 && Pow2(n - 1) <= x < Pow2(n)
    ensures LowBits(x, n)[n - 1]
  {
    if n == 1 {
    } else {
      LastLowBit(x / 2, n - 1);
      assert LowBits(x, n)[n - 1] == LowBits(x / 2, n - 1)[n - 2];
    }
  }

  lemma {:induction false} LastBit(bs: seq<Byte>)
    requires bs != [] && bs[|bs| - 1] >= 128
    ensures Bits(bs)[8 * |bs| - 1]
    decreases |bs|
  {
    hide LowBits;
    if |bs| == 1 {
      assert Pow2(4) == 16 && Pow2(7) == 8 * Pow2(4) && Pow2(8) == 2 * Pow2(7);
      LastLowBit(bs[0], 8);
    } else {
      LastBit(bs[1..]);
    }
  }

  /** The polynomial has its top bit set, so no step loses the bit it shifts out. */
  lemma TopBit()
    ensures Polynomial()[31]
  {
    hide Bits;
    LastBit([0x78, 0x3B, 0xF6, 0x82]);
  }

  /** One step back: equal high bits of the results pin down the bit shifted out. */
  lemma StepBack(s: Register, x: bool, s': Register, x': bool)
    requires BitStep(s, x)[31] == BitStep(s', x')[31]
    ensures (s[0] != x) == (s'[0] != x')
    ensures forall i :: 0 < i < 32 ==>
      (s[i] != s'[i]) == (BitStep(s, x)[i - 1] != BitStep(s', x')[i - 1])
  {
    TopBit();
    var p := Polynomial();
    hide Polynomial;
    XorAt(s[1..] + [false], p);
    XorAt(s'[1..] + [false], p);
  }

  /**
   If at most 32 bits are absorbed and the resulting registers differ only in the
   positions that 32 further bits of message could still have touched, then the
   difference of the starting registers spells out the difference of the messages
   followed by the difference of the results.
   */
  lemma {:induction false} Backtrack(s: Register, a: seq<bool>, s': Register, a': seq<bool>)
    requires |a| == |a'| <= 32
    requires forall j :: 32 - |a| <= j < 32 ==> Absorb(s, a)[j] == Absorb(s', a')[j]
    ensures forall i :: 0 <= i < |a| ==> (s[i] != s'[i]) == (a[i] != a'[i])
    ensures forall i :: |a| <= i < 32 ==>
      (s[i] != s'[i]) == (Absorb(s, a)[i - |a|] != Absorb(s', a')[i - |a|])
    decreases |a|
  {
    hide BitStep;
    if a == [] {
    } else {
      var t, t' := BitStep(s, a[0]), BitStep(s', a'[0]);
      assert Absorb(s, a) == Absorb(t, a[1..]) && Absorb(s', a') == Absorb(t', a'[1..]);
      var e, e' := Absorb(s, a), Absorb(s', a');
      hide Absorb;
      Backtrack(t, a[1..], t', a'[1..]);
      assert (t[31] != t'[31]) == (e[32 - |a|] != e'[32 - |a|]);
      StepBack(s, a[0], s', a'[0]);
      forall i | 0 < i < |a|
        ensures (s[i] != s'[i]) == (a[i] != a'[i])
      {
        assert (s[i] != s'[i]) == (t[i - 1] != t'[i - 1]);
        assert a[i] == a[1..][i - 1] && a'[i] == a'[1..][i - 1];
      }
    }
  }

  lemma {:induction false} AbsorbInjective(s: Register, s': Register, bits: seq<bool>)
    requires Absorb(s, bits) == Absorb(s', bits)
    ensures s == s'
    decreases |bits|
  {
    if bits == [] {
    } else {
      AbsorbInjective(BitStep(s, bits[0]), BitStep(s', bits[0]), bits[1..]);
      StepBack(s, bits[0], s', bits[0]);
      assert s == s';
    }
  }
}
