/**
 * The part of Kotlin's integer semantics the codec relies on. A Kotlin `Int`
 * is 32 bits of two's complement; here it is that bit pattern itself, most
 * significant bit first, so that `shl`, `shr`, `ushr`, `and` and `or` are
 * exactly the bit operations Kotlin documents. A Kotlin `Byte` is a signed
 * 8-bit integer.
 */
module Kotlin {
  import opened Bits

  /** Kotlin's `Byte`: a signed 8-bit integer. */
  newtype Byte = x: int | -128 <= x < 128

  /** Kotlin's `Int`, as its 32 bits in two's complement, most significant first. */
  type Int32 = w: seq<bool> | |w| == 32 witness Zeros(32)

  /** 2^32: Kotlin's `Int` arithmetic is arithmetic modulo this number. */
  const Modulus: int := 0x1_0000_0000

  /**
   * The `Int` holding integer v: the bit pattern of v modulo 2^32. Integer
   * literals, `Byte.toInt()` and `Char - Char` all produce their `Int` this way.
   */
  function FromInt(v: int): Int32
  {
    NatBits(v % Modulus, 32)
  }

  /** The integer an `Int` holds: bit 31 weighs -2^31. */
  function ToInt(a: Int32): int
  {
    Value(a) - (if a[0] then Modulus else 0)
  }

  /** The two's-complement bits of a byte, most significant first. */
  function ByteBits(x: Byte): (r: seq<bool>)
    ensures |r| == 8
  {
    NatBits(x as int % 256, 8)
  }

  /** The byte whose two's-complement bits are the given eight. */
  function ByteOfBits(bits: seq<bool>): Byte
    requires |bits| == 8
  {
    Pow2Small();
    var v := Value(bits);
    (if v < 128 then v else v - 256) as Byte
  }

  /** `Int.toByte()`: the low eight bits, read as a signed byte. */
  function ToByte(a: Int32): Byte
  {
    ByteOfBits(a[24..])
  }

  /** `a shl s`: Kotlin uses only the low five bits of the shift amount. */
  function Shl(a: Int32, s: int): (r: Int32)
    ensures 0 <= s < 32 ==> r == a[s..] + Zeros(s)
  {
    var t := s % 32;
    a[t..] + Zeros(t)
  }

  /** `a ushr s`: the logical right shift, filling with zeros. */
  function Ushr(a: Int32, s: int): (r: Int32)
    ensures 0 <= s < 32 ==> r == Zeros(s) + a[..32 - s]
  {
    var t := s % 32;
    Zeros(t) + a[..32 - t]
  }

  /** `a shr s`: the arithmetic right shift, filling with copies of the sign bit. */
  function Shr(a: Int32, s: int): (r: Int32)
    ensures 0 <= s < 32 ==> r == Fill(s, a[0]) + a[..32 - s]
  {
    var t := s % 32;
    Fill(t, a[0]) + a[..32 - t]
  }

  /** `a and b`, bit by bit. */
  function And(a: Int32, b: Int32): (r: Int32)
    ensures forall i :: 0 <= i < 32 ==> r[i] == (a[i] && b[i])
  {
    seq(32, i requires 0 <= i < 32 => a[i] && b[i])
  }

  /** `a or b`, bit by bit. */
  function Or(a: Int32, b: Int32): (r: Int32)
    ensures forall i :: 0 <= i < 32 ==> r[i] == (a[i] || b[i])
  {
    seq(32, i requires 0 <= i < 32 => a[i] || b[i])
  }

  lemma Pow2Small()
    ensures Pow2(5) == 32 && Pow2(7) == 128 && Pow2(8) == 256
  {
  }

  lemma Pow2Word()
    ensures Pow2(24) == 0x100_0000 && Pow2(31) == 0x8000_0000 && Pow2(32) == Modulus
  {
    Pow2Small();
    Pow2Add(8, 8);
    Pow2Add(16, 8);
    Pow2Add(24, 7);
    Pow2Add(24, 8);
  }

  lemma {:induction false} Pow2Monotone(i: nat, j: nat)
    requires i <= j
    ensures Pow2(i) <= Pow2(j)
    decreases j
  {
    if i < j {
      Pow2Monotone(i, j - 1);
    }
  }

  /** Small non-negative values fill only the low k bits of an `Int`. */
  lemma FromIntSmall(v: nat, k: nat)
    requires k <= 8 && v < Pow2(k)
    ensures FromInt(v) == Zeros(32 - k) + NatBits(v, k)
  {
    Pow2Monotone(k, 8);
    Pow2Small();
    assert v % Modulus == v;
    NatBitsHigh(v, 32 - k, k);
  }

  /** The `Int` holding zero has every bit clear. */
  lemma FromIntZero()
    ensures FromInt(0) == Zeros(32)
  {
    NatBitsOfZero(32);
  }

  /** The literal `31` is the mask of the low five bits. */
  lemma FromInt31()
    ensures FromInt(31) == Zeros(27) + Ones(5)
  {
    Pow2Small();
    FromIntSmall(31, 5);
    NatBitsAllOnes(5);
  }

  /** The literal `0xff` is the mask of the low eight bits. */
  lemma FromInt255()
    ensures FromInt(255) == Zeros(24) + Ones(8)
  {
    Pow2Small();
    FromIntSmall(255, 8);
    NatBitsAllOnes(8);
  }

  /**
   * `Byte.toInt()` sign-extends: the low eight bits are the byte's own and
   * the 24 above them are copies of its sign bit.
   */
  lemma SignExtension(x: Byte)
    ensures FromInt(x as int) == Fill(24, x < 0) + ByteBits(x)
  {
    if x >= 0 {
      PositiveByteWord(x);
    } else {
      NegativeByteWord(x);
    }
  }

  lemma PositiveByteWord(x: Byte)
    requires x >= 0
    ensures FromInt(x as int) == Zeros(24) + ByteBits(x)
  {
    assert ByteBits(x) == NatBits(x as int, 8) by {
      assert x as int % 256 == x as int;
    }
    Pow2Small();
    FromIntSmall(x as int, 8);
  }

  lemma NegativeByteWord(x: Byte)
    requires x < 0
    ensures FromInt(x as int) == Ones(24) + ByteBits(x)
  {
    var w := x as int + 256;
    Pow2Small();
    NatBitsOnesAbove(w, 24, 8);
    Pow2Word();
    assert x as int % Modulus == (Pow2(24) - 1) * Pow2(8) + w;
    assert x as int % 256 == w;
  }

  /** Reading a byte's bits back gives the byte. */
  lemma ByteRoundTrip(x: Byte)
    ensures ByteOfBits(ByteBits(x)) == x
  {
    Pow2Small();
    var v := x as int % 256;
    ValueOfNatBits(v, 8);
    var bits := ByteBits(x);
    assert Value(bits) == v;
    assert ByteOfBits(bits) as int == if v < 128 then v else v - 256;
  }

  /** Writing out the byte that eight bits denote gives the eight bits back. */
  lemma BitsRoundTrip(bits: seq<bool>)
    requires |bits| == 8
    ensures ByteBits(ByteOfBits(bits)) == bits
  {
    Pow2Small();
    var v := Value(bits);
    assert ByteOfBits(bits) as int % 256 == v;
    NatBitsOfValue(bits);
  }

  /** The bits of the bytes 0 and -1: all clear and all set. */
  lemma ByteBitsExtremes()
    ensures ByteBits(0) == Zeros(8)
    ensures ByteBits(-1) == Ones(8)
  {
    NatBitsOfZero(8);
    Pow2Small();
    NatBitsAllOnes(8);
  }
}
