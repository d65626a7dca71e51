/**
 * What the codec computes, stated over bit strings rather than registers.
 *
 * Encoding reads the input bytes as one bit string, cuts it into groups of
 * five, pads the last group with zeros, and writes one symbol of the table
 * per group. Decoding reads the five bits of each symbol, cuts the result
 * into bytes, and fails if the bits left over at the end are not all zero.
 *
 * The encoder does not quite encode the input's bits: `Byte.toInt()`
 * sign-extends, so reading a negative byte sets the bits still waiting in its
 * register. `WireBits` is the bit string it really encodes.
 */
module Crock32 {
  import opened Outcome
  import opened Bits
  import opened Kotlin
  import opened Alphabet

  /** Why decoding fails: a character `getValue` rejects, or a write past the end of the output array. */
  datatype DecodeError = InvalidSymbol | OutputOverrun

  /** The bits of a byte sequence, eight per byte, in order. */
  function BitStream(b: seq<Byte>): (r: seq<bool>)
    ensures |r| == 8 * |b|
  {
    if |b| == 0 then [] else BitStream(b[..|b| - 1]) + ByteBits(b[|b| - 1])
  }

  /**
   * Groups bits into bytes, eight at a time counted from the end. It is only
   * ever applied to a whole number of bytes' worth of bits.
   */
  function Pack(bits: seq<bool>): (r: seq<Byte>)
    ensures |r| == |bits| / 8
  {
    if |bits| < 8 then []
    else Pack(bits[..|bits| - 8]) + [ByteOfBits(bits[|bits| - 8..])]
  }

  /**
   * The bits the encoder encodes. When it reads byte i it still holds the
   * (8 * i) mod 5 bits it has not yet written out; a negative byte turns
   * those into ones.
   */
  function WireBits(b: seq<Byte>): (r: seq<bool>)
    ensures |r| == 8 * |b|
  {
    if |b| == 0 then []
    else
      var w := WireBits(b[..|b| - 1]);
      var x := b[|b| - 1];
      var k := |w| % 5;
      if x < 0 then w[..|w| - k] + Ones(k) + ByteBits(x) else w + ByteBits(x)
  }

  /** The number of zero bits that complete the last group of five. */
  function PadLen(n: nat): (r: nat)
    ensures r < 5 && n + r == 5 * ((n + 4) / 5)
  {
    (5 - n % 5) % 5
  }

  function Padded(bits: seq<bool>): (r: seq<bool>)
    ensures |r| == 5 * ((|bits| + 4) / 5)
  {
    bits + Zeros(PadLen(|bits|))
  }

  /**
   * One symbol of the table per group of five bits, counted from the end. It
   * is only ever applied to a whole number of groups.
   */
  function EncodeBits(bits: seq<bool>): (r: string)
    ensures |r| == |bits| / 5
  {
    if |bits| < 5 then ""
    else
      Pow2Small();
      EncodeBits(bits[..|bits| - 5]) + [EncTable[Value(bits[|bits| - 5..])]]
  }

  /** What `encode` returns. */
  function Encoding(b: seq<Byte>): string
  {
    EncodeBits(Padded(WireBits(b)))
  }

  /** The encoding of the input's own bits, which the sign extension in `encode` departs from. */
  function EncodeIntended(b: seq<Byte>): string
  {
    EncodeBits(Padded(BitStream(b)))
  }

  /** Every character is one `getValue` accepts. */
  predicate Valid(e: string)
  {
    forall i :: 0 <= i < |e| ==> IsSymbolChar(e[i])
  }

  /** The five bits of each symbol, in order. */
  function TextBits(e: string): (r: seq<bool>)
    requires Valid(e)
    ensures |r| == 5 * |e|
  {
    if |e| == 0 then []
    else
      assert Valid(e[..|e| - 1]);
      TextBits(e[..|e| - 1]) + NatBits(GetValue(e[|e| - 1]).value, 5)
  }

  /** The bit count below which the last whole byte of n bits ends. */
  function Whole(n: nat): (r: nat)
    ensures r <= n < r + 8 && r == 8 * (n / 8)
  {
    n / 8 * 8
  }

  /**
   * The bytes a bit string read from the text makes up: the whole bytes, when
   * the bits beyond the last of them are zero; otherwise the decoder writes
   * past the end of its output.
   */
  function DecodeBits(S: seq<bool>): (r: Result<seq<Byte>, DecodeError>)
    ensures r.Success? ==> |r.value| == |S| / 8
    ensures r != Failure(InvalidSymbol)
  {
    var L := Whole(|S|);
    if S[L..] == Zeros(|S| - L) then Success(Pack(S[..L])) else Failure(OutputOverrun)
  }

  /** What `decode` returns: an error for an invalid character, else the bytes the symbols' bits make up. */
  function Decoding(e: string): (r: Result<seq<Byte>, DecodeError>)
    ensures r.Success? ==> |r.value| == 5 * |e| / 8
    ensures r == Failure(InvalidSymbol) <==> !Valid(e)
  {
    if !Valid(e) then Failure(InvalidSymbol) else DecodeBits(TextBits(e))
  }

  // Lemmas.

  /** Unpacking bytes into bits and packing the bits again gives the bytes back. */
  lemma {:induction false} PackBitStream(b: seq<Byte>)
    ensures Pack(BitStream(b)) == b
  {
    if |b| > 0 {
      var p := b[..|b| - 1];
      var x := b[|b| - 1];
      var s := BitStream(b);
      assert s == BitStream(p) + ByteBits(x);
      assert s[..|s| - 8] == BitStream(p);
      assert s[|s| - 8..] == ByteBits(x);
      assert Pack(s) == Pack(BitStream(p)) + [ByteOfBits(ByteBits(x))];
      PackBitStream(p);
      ByteRoundTrip(x);
      assert b == p + [x];
    }
  }

  /** Without negative bytes, the encoder encodes exactly the input's bits. */
  lemma {:induction false} WireBitsNonNegative(b: seq<Byte>)
    requires forall i :: 0 <= i < |b| ==> b[i] >= 0
    ensures WireBits(b) == BitStream(b)
  {
    if |b| > 0 {
      WireBitsNonNegative(b[..|b| - 1]);
    }
  }

  /** Appending a valid character appends its five bits. */
  lemma TextBitsSnoc(t: string, c: char)
    requires Valid(t) && GetValue(c).Some?
    ensures Valid(t + [c])
    ensures TextBits(t + [c]) == TextBits(t) + NatBits(GetValue(c).value, 5)
  {
    assert (t + [c])[..|t|] == t;
  }

  /** Appending a group of five bits appends the symbol of the number they denote. */
  lemma EncodeBitsSnoc(p: seq<bool>, g: seq<bool>)
    requires |g| == 5
    ensures Value(g) < |EncTable|
    ensures EncodeBits(p + g) == EncodeBits(p) + [EncTable[Value(g)]]
  {
    Pow2Small();
    var s := p + g;
    assert s[..|s| - 5] == p;
    assert s[|s| - 5..] == g;
  }

  /** Every character of the text written for whole groups of bits is a symbol of the table. */
  lemma {:induction false} EncodeBitsSymbols(bits: seq<bool>)
    ensures forall i :: 0 <= i < |EncodeBits(bits)| ==> EncodeBits(bits)[i] in EncTable
    decreases |bits|
  {
    if |bits| >= 5 {
      EncodeBitsSymbols(bits[..|bits| - 5]);
    }
  }

  /** `encode`, and the encoding of the input's own bits, write only symbols of the table. */
  lemma EncodingSymbols(b: seq<Byte>)
    ensures forall i :: 0 <= i < |Encoding(b)| ==> Encoding(b)[i] in EncTable
    ensures forall i :: 0 <= i < |EncodeIntended(b)| ==> EncodeIntended(b)[i] in EncTable
  {
    EncodeBitsSymbols(Padded(WireBits(b)));
    EncodeBitsSymbols(Padded(BitStream(b)));
  }

  /** The symbols' bits are read back from the text m groups were written as. */
  lemma {:induction false} TextBitsOfEncodeBits(bits: seq<bool>, m: nat)
    requires |bits| == 5 * m
    ensures Valid(EncodeBits(bits))
    ensures TextBits(EncodeBits(bits)) == bits
  {
    if m > 0 {
      var p := bits[..|bits| - 5];
      var g := bits[|bits| - 5..];
      assert bits == p + g;
      EncodeBitsSnoc(p, g);
      var v := Value(g);
      TableValue(v);
      TextBitsOfEncodeBits(p, m - 1);
      TextBitsSnoc(EncodeBits(p), EncTable[v]);
      NatBitsOfValue(g);
    }
  }

  /** n whole bytes followed by fewer than eight zero bits decode to those bytes. */
  lemma DecodeBitsWhole(S: seq<bool>, n: nat, pad: nat)
    requires pad < 8 && |S| == 8 * n + pad
    requires S[8 * n..] == Zeros(pad)
    ensures DecodeBits(S) == Success(Pack(S[..8 * n]))
  {
    assert Whole(|S|) == 8 * n;
  }

  /** Whole bytes followed by fewer than eight bits decode to those bytes when the tail is zero, and overrun otherwise. */
  lemma DecodeBitsTail(S: seq<bool>, n: nat, k: nat)
    requires k < 8 && |S| == 8 * n + k
    ensures S[8 * n..] == Zeros(k) ==> DecodeBits(S) == Success(Pack(S[..8 * n]))
    ensures S[8 * n..] != Zeros(k) ==> DecodeBits(S) == Failure(OutputOverrun)
  {
    assert Whole(|S|) == 8 * n;
  }

  /** Packing one more byte's worth of bits appends one byte. */
  lemma PackSnoc(S: seq<bool>, n: nat)
    requires 8 * (n + 1) <= |S|
    ensures Pack(S[..8 * (n + 1)]) == Pack(S[..8 * n]) + [ByteOfBits(S[8 * n..8 * (n + 1)])]
  {
    var T := S[..8 * (n + 1)];
    assert T[..|T| - 8] == S[..8 * n];
    assert T[|T| - 8..] == S[8 * n..8 * (n + 1)];
  }

  /** Appending a byte appends its eight bits. */
  lemma BitStreamSnoc(b: seq<Byte>, x: Byte)
    ensures BitStream(b + [x]) == BitStream(b) + ByteBits(x)
  {
    var c := b + [x];
    assert c[..|c| - 1] == b;
  }

  /** Appending a byte: a negative one also turns the bits not yet written out into ones. */
  lemma WireBitsSnoc(b: seq<Byte>, x: Byte)
    ensures WireBits(b + [x])
         == (var w := WireBits(b); var k := |w| % 5;
             (if x < 0 then w[..|w| - k] + Ones(k) else w) + ByteBits(x))
  {
    var c := b + [x];
    assert c[..|c| - 1] == b;
  }

  /** Padding keeps the bits and appends zeros. */
  lemma PaddedParts(w: seq<bool>)
    ensures Padded(w)[..|w|] == w
    ensures Padded(w)[|w|..] == Zeros(PadLen(|w|))
  {
  }

  /** Decoding the groups of n bytes' worth of bits, padded, gives those bytes. */
  lemma DecodeEncodeBits(w: seq<bool>, n: nat)
    requires |w| == 8 * n
    ensures Decoding(EncodeBits(Padded(w))) == Success(Pack(w))
  {
    var P := Padded(w);
    var e := EncodeBits(P);
    TextBitsOfEncodeBits(P, (|w| + 4) / 5);
    PaddedParts(w);
    DecodeBitsWhole(P, n, PadLen(|w|));
  }

  /** What decoding gives back after encoding: the bytes of the bits the encoder really encoded. */
  lemma DecodeEncoding(b: seq<Byte>)
    ensures Decoding(Encoding(b)) == Success(Pack(WireBits(b)))
  {
    DecodeEncodeBits(WireBits(b), |b|);
  }

  /** Input without negative bytes survives encoding and decoding unchanged. */
  lemma RoundTripNonNegative(b: seq<Byte>)
    requires forall i :: 0 <= i < |b| ==> b[i] >= 0
    ensures Decoding(Encoding(b)) == Success(b)
  {
    DecodeEncoding(b);
    WireBitsNonNegative(b);
    PackBitStream(b);
  }

  /**
   * `DecodeEncoding` and `RoundTripNonNegative` together, in the form the
   * encoder loop's exit lemma uses them.
   */
  lemma EncodingDecodes(b: seq<Byte>)
    ensures Decoding(Encoding(b)) == Success(Pack(WireBits(b)))
    ensures (forall i :: 0 <= i < |b| ==> b[i] >= 0) ==> Decoding(Encoding(b)) == Success(b)
  {
    DecodeEncoding(b);
    if forall i :: 0 <= i < |b| ==> b[i] >= 0 {
      RoundTripNonNegative(b);
    }
  }

  /**
   * Decoding what `encode` writes gives the input back exactly when the
   * encoder reads the input's own bits, that is, when no negative byte is read
   * while bits of the previous byte that are not all ones are still pending.
   */
  lemma RoundTripExactly(b: seq<Byte>)
    ensures Decoding(Encoding(b)) == Success(b) <==> WireBits(b) == BitStream(b)
  {
    DecodeEncoding(b);
    if Pack(WireBits(b)) == b {
      BitStreamPack(WireBits(b), |b|);
    }
    if WireBits(b) == BitStream(b) {
      PackBitStream(b);
    }
  }

  /** A negative byte read with no bits pending does no harm: [0xFF] round-trips. */
  lemma RoundTripFullByte()
    ensures Decoding(Encoding([-1])) == Success([-1])
  {
    var b: seq<Byte> := [-1];
    assert b[..0] == [];
    assert WireBits(b) == BitStream(b);
    RoundTripExactly(b);
  }

  /** Every input survives the intended encoding and decoding unchanged. */
  lemma RoundTripIntended(b: seq<Byte>)
    ensures Decoding(EncodeIntended(b)) == Success(b)
  {
    DecodeEncodeBits(BitStream(b), |b|);
    PackBitStream(b);
  }

  /** The encoding has one symbol per five bits of input, rounded up. */
  lemma EncodingLength(b: seq<Byte>)
    ensures |Encoding(b)| == (8 * |b| + 4) / 5
    ensures |EncodeIntended(b)| == (8 * |b| + 4) / 5
  {
  }

  /** Decoding sees characters only through their canonical form: case and look-alikes do not matter. */
  lemma {:induction false} TextBitsCanonical(e: string, f: string)
    requires |e| == |f|
    requires forall i :: 0 <= i < |e| ==> Canonical(e[i]) == Canonical(f[i])
    requires Valid(e)
    ensures Valid(f) && TextBits(e) == TextBits(f)
  {
    forall i | 0 <= i < |e|
      ensures GetValue(f[i]) == GetValue(e[i])
    {
      CanonicalValue(e[i]);
      CanonicalValue(f[i]);
    }
    if |e| > 0 {
      TextBitsCanonical(e[..|e| - 1], f[..|f| - 1]);
    }
  }

  lemma DecodingCanonical(e: string, f: string)
    requires |e| == |f|
    requires forall i :: 0 <= i < |e| ==> Canonical(e[i]) == Canonical(f[i])
    ensures Decoding(e) == Decoding(f)
  {
    if Valid(e) {
      TextBitsCanonical(e, f);
    } else if Valid(f) {
      TextBitsCanonical(f, e);
    }
  }

  /** Four groups of five bits are written as four symbols. */
  lemma EncodeFourGroups(a: seq<bool>, b: seq<bool>, c: seq<bool>, d: seq<bool>)
    requires |a| == |b| == |c| == |d| == 5
    ensures Value(a) < 32 && Value(b) < 32 && Value(c) < 32 && Value(d) < 32
    ensures EncodeBits(a + b + c + d)
         == [Symbol(Value(a)), Symbol(Value(b)), Symbol(Value(c)), Symbol(Value(d))]
  {
    TableIsSymbols();
    EncodeBitsSnoc(a + b + c, d);
    EncodeBitsSnoc(a + b, c);
    EncodeBitsSnoc(a, b);
    EncodeBitsSnoc([], a);
    assert a == [] + a;
  }

  /** The group 10000, which a last lone one bit is padded to. */
  lemma ValueSixteen()
    ensures Value([true] + Zeros(4)) == 16
  {
    ValueOneThenZeros(4);
  }

  /** The bits the encoder encodes for [0x00, 0xFF]: five zeros, then eleven ones. */
  lemma WireBitsCounterexample()
    ensures WireBits([0, -1]) == Zeros(5) + Ones(11)
  {
    var b: seq<Byte> := [0, -1];
    ByteBitsExtremes();
    assert b[..1] == [0];
    assert b[..1][..0] == [];
    assert WireBits([0]) == Zeros(8);
  }

  lemma EncodingCounterexample()
    ensures Encoding([0, -1]) == "0ZZG"
  {
    WireBitsCounterexample();
    var W := Zeros(5) + Ones(11);
    var G := [true] + Zeros(4);
    assert Padded(W) == Zeros(5) + Ones(5) + Ones(5) + G;
    EncodeFourGroups(Zeros(5), Ones(5), Ones(5), G);
    ValueZero(Zeros(5));
    ValueOnes(5);
    Pow2Small();
    ValueSixteen();
  }

  /** Those bits, read back as bytes, are 0x07 and 0xFF. */
  lemma PackCounterexample()
    ensures Pack(Zeros(5) + Ones(11)) == [7, -1]
  {
    var W := Zeros(5) + Ones(11);
    assert W[..8] == Zeros(5) + Ones(3);
    assert W[8..] == Ones(8);
    assert W[..8][..0] == [];
    ValueLeadingZeros(5, Ones(3));
    ValueOnes(3);
    ValueOnes(8);
    Pow2Small();
  }

  lemma DecodingCounterexample()
    ensures Decoding(Encoding([0, -1])) == Success([7, -1])
  {
    DecodeEncoding([0, -1]);
    WireBitsCounterexample();
    PackCounterexample();
  }

  /** The input's own bits for [0x00, 0xFF]: eight zeros, then eight ones. */
  lemma BitStreamCounterexample()
    ensures BitStream([0, -1]) == Zeros(8) + Ones(8)
  {
    var b: seq<Byte> := [0, -1];
    ByteBitsExtremes();
    assert b[..1] == [0];
    assert b[..1][..0] == [];
  }

  /** Those bits, padded, fall into the groups 00000, 00011, 11111 and 10000. */
  lemma IntendedGroups()
    ensures Padded(Zeros(8) + Ones(8))
         == Zeros(5) + (Zeros(3) + Ones(2)) + Ones(5) + ([true] + Zeros(4))
  {
  }

  lemma IntendedCounterexample()
    ensures EncodeIntended([0, -1]) == "03ZG"
  {
    BitStreamCounterexample();
    IntendedGroups();
    var T := Zeros(3) + Ones(2);
    var G := [true] + Zeros(4);
    EncodeFourGroups(Zeros(5), T, Ones(5), G);
    ValueZero(Zeros(5));
    ValueLeadingZeros(3, Ones(2));
    ValueOnes(2);
    ValueOnes(5);
    Pow2Small();
    ValueSixteen();
  }

  /** Two groups of five bits are written as two symbols. */
  lemma EncodeTwoGroups(a: seq<bool>, b: seq<bool>)
    requires |a| == |b| == 5
    ensures Value(a) < 32 && Value(b) < 32
    ensures EncodeBits(a + b) == [Symbol(Value(a)), Symbol(Value(b))]
  {
    TableIsSymbols();
    EncodeBitsSnoc(a, b);
    EncodeBitsSnoc([], a);
    assert a == [] + a;
  }

  /** Empty input gives empty text. */
  lemma EncodingEmpty()
    ensures Encoding([]) == ""
  {
  }

  /** Empty text decodes to no bytes. */
  lemma DecodingEmpty()
    ensures Decoding("") == Success([])
  {
    DecodingCharacterized("", []);
  }

  /** The byte 0x00 is written "00". */
  lemma EncodingZeroByte()
    ensures Encoding([0]) == "00"
  {
    var b: seq<Byte> := [0];
    ByteBitsExtremes();
    assert b[..0] == [];
    assert Padded(WireBits(b)) == Zeros(5) + Zeros(5);
    EncodeTwoGroups(Zeros(5), Zeros(5));
    ValueZero(Zeros(5));
  }

  /** The group 11100, which the last three bits of a byte of ones are padded to. */
  lemma ValueTwentyEight()
    ensures Value(Ones(3) + Zeros(2)) == 28
  {
    var s := Ones(3) + Zeros(2);
    assert s[..4] == Ones(3) + [false];
    assert (Ones(3) + [false])[..3] == Ones(3);
    ValueOnes(3);
  }

  /** The byte 0xFF is written "ZW": eight ones and two zeros of padding are the groups 31 and 28. */
  lemma EncodingFullByte()
    ensures Encoding([-1]) == "ZW"
  {
    var b: seq<Byte> := [-1];
    ByteBitsExtremes();
    assert b[..0] == [];
    var g := Ones(3) + Zeros(2);
    assert Padded(WireBits(b)) == Ones(5) + g;
    EncodeTwoGroups(Ones(5), g);
    ValueOnes(5);
    Pow2Small();
    ValueTwentyEight();
  }

  /**
   * The input [0x00, 0xFF] shows the sign extension: the encoder turns the
   * three bits of the first byte still waiting in its register into ones, so
   * the text decodes to [0x07, 0xFF]. Encoding the input's own bits gives "03ZG".
   */
  lemma SignExtensionCounterexample()
    ensures Encoding([0, -1]) == "0ZZG"
    ensures Decoding(Encoding([0, -1])) == Success([7, -1])
    ensures EncodeIntended([0, -1]) == "03ZG"
    ensures Decoding(EncodeIntended([0, -1])) == Success([0, -1])
  {
    EncodingCounterexample();
    DecodingCounterexample();
    IntendedCounterexample();
    RoundTripIntended([0, -1]);
  }
  /** Packing n bytes' worth of bits and unpacking the bytes again gives the bits back. */
  lemma {:induction false} BitStreamPack(S: seq<bool>, n: nat)
    requires |S| == 8 * n
    ensures BitStream(Pack(S)) == S
  {
    if n > 0 {
      var p := S[..|S| - 8];
      var g := S[|S| - 8..];
      var y := ByteOfBits(g);
      assert Pack(S) == Pack(p) + [y];
      BitStreamPack(p, n - 1);
      BitStreamSnoc(Pack(p), y);
      BitsRoundTrip(g);
      assert S == p + g;
    }
  }

  /**
   * Decoding succeeds with b exactly when every character is valid and the
   * symbols' bits are the bits of b followed by fewer than eight zeros.
   */
  lemma DecodingCharacterized(e: string, b: seq<Byte>)
    ensures Decoding(e) == Success(b)
        <==> Valid(e) && 0 <= 5 * |e| - 8 * |b| < 8
             && TextBits(e) == BitStream(b) + Zeros(5 * |e| - 8 * |b|)
  {
    if Valid(e) {
      var S := TextBits(e);
      var L := Whole(|S|);
      if Decoding(e) == Success(b) {
        BitStreamPack(S[..L], L / 8);
        assert S == S[..L] + S[L..];
      }
      var k := 5 * |e| - 8 * |b|;
      if 0 <= k < 8 && S == BitStream(b) + Zeros(k) {
        assert S[8 * |b|..] == Zeros(k);
        assert S[..8 * |b|] == BitStream(b);
        DecodeBitsWhole(S, |b|, k);
        PackBitStream(b);
      }
    }
  }

  /** A non-negative byte is written as the eight bits that denote it. */
  lemma ByteBitsOfValue(x: Byte, bits: seq<bool>)
    requires |bits| == 8 && x >= 0 && Value(bits) == x as int
    ensures ByteBits(x) == bits
  {
    assert x as int % 256 == x as int;
    NatBitsOfValue(bits);
  }

  /** The bits of the byte 0x01. */
  lemma ByteBitsOne()
    ensures ByteBits(1) == Zeros(7) + [true]
  {
    ValueLeadingZeros(7, [true]);
    ByteBitsOfValue(1, Zeros(7) + [true]);
  }

  /** The group 00100, which the last bit of 0x01 is padded to. */
  lemma ValueFour()
    ensures Value(Zeros(2) + [true, false, false]) == 4
  {
    ValueLeadingZeros(2, [true, false, false]);
  }

  /** The byte 0x01 is written "04": its bits, padded, are the groups 0 and 4. */
  lemma EncodingOneByte()
    ensures Encoding([1]) == "04"
  {
    var b: seq<Byte> := [1];
    assert b[..0] == [];
    ByteBitsOne();
    var g := Zeros(2) + [true, false, false];
    assert Padded(WireBits(b)) == Zeros(5) + g;
    EncodeTwoGroups(Zeros(5), g);
    ValueZero(Zeros(5));
    ValueFour();
  }

  /** A lone symbol of value 1 leaves the non-zero bits 00001: decoding "1" writes past its empty output. */
  lemma DecodingOverrun()
    ensures Decoding("1") == Failure(OutputOverrun)
  {
    var e := "1";
    assert e[..0] == "";
    assert TextBits(e) == NatBits(1, 5);
    assert NatBits(1, 5)[4];
  }

  /** The bits of the bytes 0x02 and 0x03. */
  lemma ByteBitsTwoThree()
    ensures ByteBits(2) == Zeros(6) + [true, false]
    ensures ByteBits(3) == Zeros(6) + [true, true]
  {
    ValueLeadingZeros(6, [true, false]);
    ValueLeadingZeros(6, [true, true]);
    assert [true, false][..1] == [true] && [true, true][..1] == [true];
    ByteBitsOfValue(2, Zeros(6) + [true, false]);
    ByteBitsOfValue(3, Zeros(6) + [true, true]);
  }

  /** The bits of [0x01, 0x02, 0x03], byte by byte. */
  lemma BitStreamThreeBytes()
    ensures BitStream([1, 2, 3]) == ByteBits(1) + ByteBits(2) + ByteBits(3)
  {
    var b: seq<Byte> := [1, 2, 3];
    assert b[..2] == [1, 2];
    assert b[..2][..1] == [1];
    assert b[..2][..1][..0] == [];
  }

  /** The first two bytes' bits regrouped: 00000 00100 00001 and one bit over. */
  lemma ThreeBytesHead()
    ensures Zeros(7) + [true] + (Zeros(6) + [true, false])
         == Zeros(5) + (Zeros(2) + [true, false, false]) + (Zeros(4) + [true]) + [false]
  {
    assert Zeros(7) == Zeros(5) + Zeros(2);
    assert Zeros(6) == Zeros(4) + Zeros(2);
  }

  /** That bit, the third byte's bits and the padding regrouped: 00000 00110. */
  lemma ThreeBytesTail()
    ensures [false] + (Zeros(6) + [true, true]) + Zeros(1)
         == Zeros(5) + (Zeros(2) + [true, true, false])
  {
    assert [false] + Zeros(6) == Zeros(5) + Zeros(2);
  }

  /** The encoder reads [0x01, 0x02, 0x03] as the input's own 24 bits: 00000 00100 00001, then 0 00000011. */
  lemma ThreeByteBits()
    ensures WireBits([1, 2, 3])
         == Zeros(5) + (Zeros(2) + [true, false, false]) + (Zeros(4) + [true]) + ([false] + (Zeros(6) + [true, true]))
  {
    var b: seq<Byte> := [1, 2, 3];
    WireBitsNonNegative(b);
    BitStreamThreeBytes();
    ByteBitsOne();
    ByteBitsTwoThree();
    ThreeBytesHead();
  }

  /** Padding a string that ends one bit short of a group adds one zero bit, after the last whole groups. */
  lemma PaddedRegroup(h: seq<bool>, t: seq<bool>)
    requires |h| == 15 && |t| == 9
    ensures Padded(h + t) == h + (t + Zeros(1))
  {
    assert PadLen(24) == 1;
  }

  /** Those 24 bits and one bit of padding fall into the groups 00000, 00100, 00001, 00000 and 00110. */
  lemma ThreeByteGroups()
    ensures Padded(WireBits([1, 2, 3]))
         == Zeros(5) + (Zeros(2) + [true, false, false]) + (Zeros(4) + [true])
            + (Zeros(5) + (Zeros(2) + [true, true, false]))
  {
    ThreeByteBits();
    ThreeBytesTail();
    PaddedRegroup(Zeros(5) + (Zeros(2) + [true, false, false]) + (Zeros(4) + [true]),
                  [false] + (Zeros(6) + [true, true]));
  }

  /** Five groups of five bits are written as five symbols. */
  lemma EncodeFiveGroups(a: seq<bool>, b: seq<bool>, c: seq<bool>, d: seq<bool>, e: seq<bool>)
    requires |a| == |b| == |c| == |d| == |e| == 5
    ensures Value(a) < 32 && Value(b) < 32 && Value(c) < 32 && Value(d) < 32 && Value(e) < 32
    ensures EncodeBits(a + b + c + (d + e))
         == [Symbol(Value(a)), Symbol(Value(b)), Symbol(Value(c)), Symbol(Value(d)), Symbol(Value(e))]
  {
    assert a + b + c + (d + e) == a + b + c + d + e;
    EncodeFourGroups(a, b, c, d);
    EncodeBitsSnoc(a + b + c + d, e);
    TableIsSymbols();
  }

  /** The groups 00001 and 00110. */
  lemma ValueOneSix()
    ensures Value(Zeros(4) + [true]) == 1
    ensures Value(Zeros(2) + [true, true, false]) == 6
  {
    ValueLeadingZeros(4, [true]);
    ValueLeadingZeros(2, [true, true, false]);
  }

  /** The bytes [0x01, 0x02, 0x03] are written "04106". */
  lemma EncodingThreeBytes()
    ensures Encoding([1, 2, 3]) == "04106"
  {
    ThreeByteGroups();
    EncodeFiveGroups(Zeros(5), Zeros(2) + [true, false, false], Zeros(4) + [true],
                     Zeros(5), Zeros(2) + [true, true, false]);
    ValueZero(Zeros(5));
    ValueFour();
    ValueOneSix();
  }
}
