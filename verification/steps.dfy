/**
 * What one pass through the codec loops does, stated against the bit-string
 * description of `Crock32`. Each loop keeps its pending bits in an `Int`
 * register; the invariants below say which bit string the register's low
 * bits are the unconsumed tail of, and the lemmas say that each step of the
 * loops keeps them.
 */
module CodecSteps {
  import opened Outcome
  import opened Bits
  import opened Kotlin
  import opened Register
  import opened Alphabet
  import opened Crock32

  // The encoder.

  /**
   * The encoder has written the symbols sb for the first 5 * |sb| bits of G,
   * and holds the remaining numBits bits of G in the low bits of bitBuf.
   */
  ghost predicate Emitting(G: seq<bool>, sb: string, bitBuf: Int32, numBits: nat)
  {
    numBits <= 32
    && |G| == 5 * |sb| + numBits
    && sb == EncodeBits(G[..5 * |sb|])
    && Window(bitBuf, numBits) == G[5 * |sb|..]
  }

  /** Reading byte x after bytes b turns the encoded bits of b into those of b + [x]. */
  lemma WireBitsStep(b: seq<Byte>, x: Byte, m: nat, n: nat)
    requires n < 5 && |WireBits(b)| == 5 * m + n
    ensures |WireBits(b + [x])| == 5 * m + n + 8
    ensures WireBits(b + [x])[..5 * m] == WireBits(b)[..5 * m]
    ensures WireBits(b + [x])[5 * m..]
         == (if x < 0 then Ones(n) else WireBits(b)[5 * m..]) + ByteBits(x)
  {
    var w := WireBits(b);
    GroupRemainder(m, n);
    WireBitsSnoc(b, x);
    var L := if x < 0 then w[..5 * m] + Ones(n) else w;
    assert WireBits(b + [x]) == L + ByteBits(x);
    assert (L + ByteBits(x))[..5 * m] == w[..5 * m];
    assert (L + ByteBits(x))[5 * m..] == (if x < 0 then Ones(n) else w[5 * m..]) + ByteBits(x);
  }

  /** Bits past m whole groups of five number fewer than five: the remainder. */
  lemma GroupRemainder(m: nat, n: nat)
    requires n < 5
    ensures (5 * m + n) % 5 == n
  {
  }

  /**
   * Reading a byte while fewer than five bits are pending: `bitBuf shl 8 or
   * d.toInt()` holds the pending bits of the longer input.
   */
  lemma EncodeReadStep(b: seq<Byte>, x: Byte, sb: string, a: Int32, n: nat)
    requires n < 5 && Emitting(WireBits(b), sb, a, n)
    ensures Emitting(WireBits(b + [x]), sb, Or(Shl(a, 8), FromInt(x as int)), n + 8)
  {
    WireBitsStep(b, x, |sb|, n);
    ShiftInByte(a, n, x);
  }

  /**
   * The corrected read, `bitBuf shl 8 or (d.toInt() and 0xff)`: the register
   * holds the pending bits of the input's own bits, one byte longer.
   */
  lemma EncodeMaskedReadStep(b: seq<Byte>, x: Byte, sb: string, a: Int32, n: nat)
    requires n < 5 && Emitting(BitStream(b), sb, a, n)
    ensures Emitting(BitStream(b + [x]), sb, Or(Shl(a, 8), And(FromInt(x as int), FromInt(255))), n + 8)
  {
    BitStreamStep(b, x, |sb|);
    ShiftInMaskedByte(a, n, x);
  }

  /** Appending a byte keeps the first 5 * m bits and extends the rest by the byte's bits. */
  lemma BitStreamStep(b: seq<Byte>, x: Byte, m: nat)
    requires 5 * m <= |BitStream(b)|
    ensures BitStream(b + [x])[..5 * m] == BitStream(b)[..5 * m]
    ensures BitStream(b + [x])[5 * m..] == BitStream(b)[5 * m..] + ByteBits(x)
  {
    BitStreamSnoc(b, x);
    AppendSlices(BitStream(b), ByteBits(x), 5 * m);
  }

  lemma AppendSlices(w: seq<bool>, y: seq<bool>, k: nat)
    requires k <= |w|
    ensures (w + y)[..k] == w[..k]
    ensures (w + y)[k..] == w[k..] + y
  {
  }

  /** Padding the last k < 5 pending bits with zeros: `bitBuf shl (5 - numBits)`. */
  lemma EncodePadStep(W: seq<bool>, sb: string, a: Int32, k: nat)
    requires 1 <= k < 5 && Emitting(W, sb, a, k)
    ensures Emitting(Padded(W), sb, Shl(a, 5 - k), 5)
  {
    var m := |sb|;
    assert PadLen(|W|) == 5 - k;
    var P := Padded(W);
    assert P[..5 * m] == W[..5 * m];
    assert P[5 * m..] == W[5 * m..] + Zeros(5 - k);
    PadSymbol(a, k);
  }

  /**
   * Writing a symbol while k >= 5 bits are pending: the symbol of the top
   * five of them is appended and five fewer bits are pending.
   */
  lemma EncodeEmitStep(G: seq<bool>, sb: string, a: Int32, k: nat)
    requires 5 <= k <= 32 && Emitting(G, sb, a, k)
    ensures 0 <= ToInt(And(Ushr(a, k - 5), FromInt(31))) < |EncTable|
    ensures Emitting(G, sb + [EncTable[ToInt(And(Ushr(a, k - 5), FromInt(31)))]], a, k - 5)
  {
    var m := |sb|;
    TakeSymbol(a, k);
    var g := G[5 * m..5 * m + 5];
    SplitGroup(G, Window(a, k), 5 * m, 5);
    EncodeBitsSnoc(G[..5 * m], g);
    WindowDrop(a, k, 5);
  }

  /** When T is the tail of G from i on, its first w bits are G[i..i+w], and G[..i] followed by them is G[..i+w]. */
  lemma SplitGroup(G: seq<bool>, T: seq<bool>, i: nat, w: nat)
    requires i + w <= |G| && T == G[i..]
    ensures T[..w] == G[i..i + w]
    ensures T[w..] == G[i + w..]
    ensures G[..i] + G[i..i + w] == G[..i + w]
  {
  }

  /** With nothing pending, the symbols written encode all of G. */
  lemma EncodeDone(G: seq<bool>, sb: string, a: Int32)
    requires Emitting(G, sb, a, 0)
    ensures sb == EncodeBits(G)
  {
    assert G[..5 * |sb|] == G;
  }

  /** Bits that already fill whole groups are not padded. */
  lemma PaddedWhole(W: seq<bool>, m: nat)
    requires |W| == 5 * m
    ensures Padded(W) == W
  {
    assert PadLen(|W|) == 0;
  }

  /** The bits the encoder works through: W, and W padded once the last group has been padded. */
  ghost function Pending(W: seq<bool>, padded: bool): seq<bool>
  {
    if padded then Padded(W) else W
  }

  /** When the loop stops, the text written encodes all of W, padded. */
  lemma EncodeFinish(W: seq<bool>, sb: string, a: Int32, padded: bool)
    requires Emitting(Pending(W, padded), sb, a, 0)
    ensures sb == EncodeBits(Padded(W))
  {
    var G := Pending(W, padded);
    EncodeDone(G, sb, a);
    if !padded {
      PaddedWhole(G, |sb|);
    }
  }

  /**
   * When `encode` stops after the last byte, its text is the encoding, and
   * decoding the text gives the bytes of the bits it read: the input itself
   * when no byte is negative.
   */
  lemma EncodeWireDone(bytes: seq<Byte>, pos: nat, sb: string, a: Int32, padded: bool)
    requires pos == |bytes|
    requires Emitting(Pending(WireBits(bytes[..pos]), padded), sb, a, 0)
    ensures sb == Encoding(bytes)
    ensures Decoding(sb) == Success(Pack(WireBits(bytes)))
    ensures (forall i :: 0 <= i < |bytes| ==> bytes[i] >= 0) ==> Decoding(sb) == Success(bytes)
  {
    assert bytes[..pos] == bytes;
    EncodeFinish(WireBits(bytes), sb, a, padded);
    EncodingDecodes(bytes);
  }

  /** When the corrected loop stops after the last byte, its text encodes the input's own bits and decodes back to the input. */
  lemma EncodeIntendedDone(bytes: seq<Byte>, pos: nat, sb: string, a: Int32, padded: bool)
    requires pos == |bytes|
    requires Emitting(Pending(BitStream(bytes[..pos]), padded), sb, a, 0)
    ensures sb == EncodeIntended(bytes)
    ensures Decoding(sb) == Success(bytes)
  {
    assert bytes[..pos] == bytes;
    EncodeFinish(BitStream(bytes), sb, a, padded);
    RoundTripIntended(bytes);
  }

  // The decoder.

  /**
   * The decoder has written the first outPos bytes that the bits S make up
   * and holds the remaining bitpos bits of S in the low bits of bitbuf.
   */
  ghost predicate Unpacking(S: seq<bool>, out: seq<Byte>, outPos: nat, bitbuf: Int32, bitpos: nat)
  {
    bitpos <= 32 && outPos <= |out|
    && |S| == 8 * outPos + bitpos
    && out[..outPos] == Pack(S[..8 * outPos])
    && Window(bitbuf, bitpos) == S[8 * outPos..]
  }

  /** The decoder has read the first rp characters of e, all valid, and is unpacking their bits. */
  ghost predicate Holding(e: string, rp: nat, out: seq<Byte>, outPos: nat, bitbuf: Int32, bitpos: nat)
  {
    rp <= |e| && Valid(e[..rp]) && Unpacking(TextBits(e[..rp]), out, outPos, bitbuf, bitpos)
  }

  /** `bitbuf shl 5 or v` appends the five bits of v to those being unpacked. */
  lemma UnpackSymbol(S: seq<bool>, out: seq<Byte>, outPos: nat, a: Int32, bitpos: nat, v: int)
    requires bitpos < 8 && 0 <= v < 32
    requires Unpacking(S, out, outPos, a, bitpos)
    ensures Unpacking(S + NatBits(v, 5), out, outPos, Or(Shl(a, 5), FromInt(v)), bitpos + 5)
  {
    ShiftInSymbol(a, bitpos, v);
    AppendSlices(S, NatBits(v, 5), 8 * outPos);
  }

  /** Storing the byte the top eight pending bits form moves eight bits from the register to the output. */
  lemma UnpackByte(S: seq<bool>, out: seq<Byte>, outPos: nat, a: Int32, bitpos: nat)
    requires 8 <= bitpos <= 32 && outPos < |out|
    requires Unpacking(S, out, outPos, a, bitpos)
    ensures Unpacking(S, out[outPos := ToByte(And(Shr(a, bitpos - 8), FromInt(255)))],
                      outPos + 1, a, bitpos - 8)
  {
    var d := ToByte(And(Shr(a, bitpos - 8), FromInt(255)));
    var o := 8 * outPos;
    TakeByte(a, bitpos);
    PackSnoc(S, outPos);
    SplitGroup(S, Window(a, bitpos), o, 8);
    StoreByte(out, outPos, d);
    WindowDrop(a, bitpos, 8);
  }

  /** Storing d at position i of an array whose first i entries are p gives p + [d]. */
  lemma StoreByte(out: seq<Byte>, i: nat, d: Byte)
    requires i < |out|
    ensures out[i := d][..i + 1] == out[..i] + [d]
  {
  }

  /** Nothing is read or written yet. */
  lemma DecodeStart(e: string, out: seq<Byte>, bitbuf: Int32)
    ensures Holding(e, 0, out, 0, bitbuf, 0)
  {
    assert e[..0] == [];
  }

  /** An invalid character anywhere makes the whole text invalid. */
  lemma DecodeInvalid(e: string, rp: nat)
    requires rp < |e| && GetValue(e[rp]).None?
    ensures Decoding(e) == Failure(InvalidSymbol)
  {
  }

  /** Reading a valid character: `bitbuf shl 5 or v` appends the character's five bits. */
  lemma DecodeReadStep(e: string, rp: nat, out: seq<Byte>, outPos: nat, a: Int32, bitpos: nat, v: int)
    requires rp < |e| && bitpos < 8 && GetValue(e[rp]) == Some(v)
    requires Holding(e, rp, out, outPos, a, bitpos)
    ensures Holding(e, rp + 1, out, outPos, Or(Shl(a, 5), FromInt(v)), bitpos + 5)
  {
    assert e[..rp + 1] == e[..rp] + [e[rp]];
    TextBitsSnoc(e[..rp], e[rp]);
    UnpackSymbol(TextBits(e[..rp]), out, outPos, a, bitpos, v);
  }

  /** While eight or more bits are pending, there is room for the byte they start with. */
  lemma DecodeRoom(e: string, rp: nat, out: seq<Byte>, outPos: nat, a: Int32, bitpos: nat)
    requires 8 <= bitpos && |out| == 5 * |e| / 8
    requires Holding(e, rp, out, outPos, a, bitpos)
    ensures outPos < |out|
  {
  }

  /**
   * Writing a byte while bitpos >= 8 bits are pending: the byte the top eight
   * form is stored at outPos and eight fewer bits are pending.
   */
  lemma DecodeWriteStep(e: string, rp: nat, out: seq<Byte>, outPos: nat, a: Int32, bitpos: nat)
    requires 8 <= bitpos <= 32 && outPos < |out|
    requires Holding(e, rp, out, outPos, a, bitpos)
    ensures Holding(e, rp, out[outPos := ToByte(And(Shr(a, bitpos - 8), FromInt(255)))],
                    outPos + 1, a, bitpos - 8)
  {
    UnpackByte(TextBits(e[..rp]), out, outPos, a, bitpos);
  }

  /** After the last character, the bytes written are all the output there is room for. */
  lemma DecodeFull(e: string, out: seq<Byte>, outPos: nat, a: Int32, bitpos: nat)
    requires bitpos < 8 && |out| == 5 * |e| / 8
    requires Holding(e, |e|, out, outPos, a, bitpos)
    ensures outPos == |out| && Valid(e)
    ensures |TextBits(e)| == 8 * outPos + bitpos
    ensures out == Pack(TextBits(e)[..8 * outPos])
    ensures Window(a, bitpos) == TextBits(e)[8 * outPos..]
  {
    assert e[..|e|] == e;
  }

  /** With no bits pending after the last character, the bytes written are the decoding. */
  lemma DecodeDone(e: string, out: seq<Byte>, outPos: nat, a: Int32)
    requires |out| == 5 * |e| / 8
    requires Holding(e, |e|, out, outPos, a, 0)
    ensures Decoding(e) == Success(out)
  {
    DecodeFull(e, out, outPos, a, 0);
    var S := TextBits(e);
    DecodeBitsWhole(S, outPos, 0);
    assert S[..8 * outPos] == S;
  }

  /**
   * The invariant of `decode`'s outer loop: it is still reading (`Holding`),
   * or it has finished with the decoding in `out` (`done`), or eight bits are
   * pending that can only be written past the end of the output.
   */
  ghost predicate Decoder(e: string, rp: nat, out: seq<Byte>, outPos: nat, bitbuf: Int32, bitpos: nat, done: bool)
  {
    && (done ==> rp == |e| && bitpos == 0 && Decoding(e) == Success(out))
    && (bitpos == 8 ==> rp == |e| && outPos == |out| && Decoding(e) == Failure(OutputOverrun))
    && (!done && bitpos < 8 ==> Holding(e, rp, out, outPos, bitbuf, bitpos))
  }

  /** Before a pass, decoding has not finished: it is still reading, or eight bits wait to be written past the end. */
  lemma DecoderCases(e: string, rp: nat, out: seq<Byte>, outPos: nat, bitbuf: Int32, bitpos: nat, done: bool)
    requires rp <= |e| && bitpos <= 8
    requires rp < |e| || bitpos > 0
    requires Decoder(e, rp, out, outPos, bitbuf, bitpos, done)
    ensures !done
    ensures bitpos < 8 ==> Holding(e, rp, out, outPos, bitbuf, bitpos)
    ensures bitpos == 8 ==> rp == |e| && outPos == |out| && Decoding(e) == Failure(OutputOverrun)
  {
  }

  /**
   * When the loop stops without error, either the padding test found zero
   * bits (`done`) or none were left over: the output is the decoding, and its
   * bits are the symbols' bits without the zero padding.
   */
  lemma DecodeFinish(e: string, out: seq<Byte>, outPos: nat, a: Int32, done: bool)
    requires |out| == 5 * |e| / 8
    requires done ==> Decoding(e) == Success(out)
    requires !done ==> Holding(e, |e|, out, outPos, a, 0)
    ensures Decoding(e) == Success(out)
    ensures Valid(e) && TextBits(e) == BitStream(out) + Zeros(5 * |e| - 8 * |out|)
  {
    if !done {
      DecodeDone(e, out, outPos, a);
    }
    DecodingCharacterized(e, out);
  }

  /**
   * The test of the bits left over after the last character: `(bitbuf shl
   * (8 - bitpos)) and 0xff` is zero exactly when decoding succeeds, and
   * otherwise the decoder goes on to write past the end of its output.
   */
  lemma DecodePadStep(e: string, out: seq<Byte>, outPos: nat, a: Int32, bitpos: nat)
    requires 1 <= bitpos < 8 && |out| == 5 * |e| / 8
    requires Holding(e, |e|, out, outPos, a, bitpos)
    ensures outPos == |out|
    ensures And(Shl(a, 8 - bitpos), FromInt(255)) == FromInt(0) ==> Decoding(e) == Success(out)
    ensures And(Shl(a, 8 - bitpos), FromInt(255)) != FromInt(0) ==> Decoding(e) == Failure(OutputOverrun)
  {
    DecodeFull(e, out, outPos, a, bitpos);
    PadByte(a, bitpos);
    DecodeBitsTail(TextBits(e), outPos, bitpos);
  }

  // The blocks of the loops, each with the register operations of the source.

  /** `bitBuf.shl(8).or(d.toInt())` for the byte d at pos: the register now holds the bits of one more byte. */
  method ShiftInByteAt(bytes: seq<Byte>, pos: nat, bitBuf: Int32, numBits: nat, ghost sb: string)
    returns (a: Int32)
    requires pos < |bytes| && numBits < 5
    requires Emitting(WireBits(bytes[..pos]), sb, bitBuf, numBits)
    ensures Emitting(WireBits(bytes[..pos + 1]), sb, a, numBits + 8)
  {
    var d := bytes[pos];
    EncodeReadStep(bytes[..pos], d, sb, bitBuf, numBits);
    assert bytes[..pos] + [d] == bytes[..pos + 1];
    a := Or(Shl(bitBuf, 8), FromInt(d as int));
  }

  /** The corrected read `bitBuf.shl(8).or(d.toInt().and(0xff))`: the register holds the input's own bits. */
  method ShiftInUnsignedByteAt(bytes: seq<Byte>, pos: nat, bitBuf: Int32, numBits: nat, ghost sb: string)
    returns (a: Int32)
    requires pos < |bytes| && numBits < 5
    requires Emitting(BitStream(bytes[..pos]), sb, bitBuf, numBits)
    ensures Emitting(BitStream(bytes[..pos + 1]), sb, a, numBits + 8)
  {
    var d := bytes[pos];
    EncodeMaskedReadStep(bytes[..pos], d, sb, bitBuf, numBits);
    assert bytes[..pos] + [d] == bytes[..pos + 1];
    a := Or(Shl(bitBuf, 8), And(FromInt(d as int), FromInt(255)));
  }

  /** `bitBuf.shl(5 - numBits)`: the last pending bits become a whole group, padded with zeros. */
  method PadGroup(bitBuf: Int32, numBits: nat, ghost W: seq<bool>, ghost sb: string) returns (a: Int32)
    requires 1 <= numBits < 5 && Emitting(W, sb, bitBuf, numBits)
    ensures Emitting(Padded(W), sb, a, 5)
  {
    EncodePadStep(W, sb, bitBuf, numBits);
    a := Shl(bitBuf, 5 - numBits);
  }

  /**
   * `encTableCrock[bitBuf.ushr(numBits - 5).and(31)]`: the symbol of the top
   * five pending bits, looked up in the caller's own copy of the table, which
   * must have the same symbols as the library's.
   */
  method NextSymbol(table: string, bitBuf: Int32, numBits: nat, ghost G: seq<bool>, sb: string) returns (c: char)
    requires table == EncTable
    requires 5 <= numBits <= 32 && Emitting(G, sb, bitBuf, numBits)
    ensures c in EncTable
    ensures Emitting(G, sb + [c], bitBuf, numBits - 5)
  {
    EncodeEmitStep(G, sb, bitBuf, numBits);
    var v := ToInt(And(Ushr(bitBuf, numBits - 5), FromInt(31)));
    c := table[v];
  }

  /**
   * `bitbuf.shl(5).or(getValue(e[rp]))`: the register takes in the five
   * bits of the next character; `ok` is false where `getValue` throws.
   */
  method ShiftInSymbolAt(e: string, rp: nat, ghost out: seq<Byte>, ghost outPos: nat, bitbuf: Int32, bitpos: nat)
    returns (ok: bool, a: Int32)
    requires rp < |e| && bitpos < 8
    requires Holding(e, rp, out, outPos, bitbuf, bitpos)
    ensures !ok ==> Decoding(e) == Failure(InvalidSymbol)
    ensures ok ==> Holding(e, rp + 1, out, outPos, a, bitpos + 5)
  {
    var v := GetValue(e[rp]);
    if v.None? {
      DecodeInvalid(e, rp);
      return false, bitbuf;
    }
    DecodeReadStep(e, rp, out, outPos, bitbuf, bitpos, v.value);
    ok, a := true, Or(Shl(bitbuf, 5), FromInt(v.value));
  }

  /**
   * The inner loop of `decode`: writes out every whole byte pending in the
   * register. With the decoder's state as `Holding` describes it there is
   * always room for them. `ok` is false exactly where the write falls outside
   * the array: a byte is pending and the output is already full.
   */
  method WriteBytes(ghost e: string, ghost rp: nat, out: seq<Byte>, outPos: nat, bitbuf: Int32, bitpos: nat)
    returns (ok: bool, out': seq<Byte>, outPos': nat, bitpos': nat)
    requires bitpos <= 12 && |out| == 5 * |e| / 8
    ensures |out'| == |out|
    ensures ok ==> bitpos' < 8
    ensures !ok ==> outPos' >= |out| && bitpos' >= 8
    ensures outPos == |out| && bitpos >= 8 ==> !ok
    ensures Holding(e, rp, out, outPos, bitbuf, bitpos)
            ==> ok && bitpos' < 8 && Holding(e, rp, out', outPos', bitbuf, bitpos')
  {
    ghost var holding := Holding(e, rp, out, outPos, bitbuf, bitpos);
    ghost var full := outPos == |out| && bitpos >= 8;
    out', outPos', bitpos' := out, outPos, bitpos;
    while bitpos' >= 8
      invariant |out'| == |out| && bitpos' <= 12
      invariant holding ==> Holding(e, rp, out', outPos', bitbuf, bitpos')
      invariant full ==> outPos' == outPos && bitpos' == bitpos
      decreases bitpos'
    {
      if holding {
        DecodeRoom(e, rp, out', outPos', bitbuf, bitpos');
      }
      if outPos' >= |out'| {
        return false, out', outPos', bitpos';
      }
      var d := ToByte(And(Shr(bitbuf, bitpos' - 8), FromInt(255)));
      if holding {
        DecodeWriteStep(e, rp, out', outPos', bitbuf, bitpos');
      }
      out' := out'[outPos' := d];
      outPos' := outPos' + 1;
      bitpos' := bitpos' - 8;
    }
    ok := true;
  }

  /**
   * How far `decode` is from stopping once every character has been read: no
   * bits pending, eight pending (one more write), or fewer than eight (the
   * padding test is still to come).
   */
  function Stage(bitpos: nat): nat
  {
    if bitpos == 0 then 0 else if bitpos == 8 then 1 else 2
  }

  /**
   * One pass of `decode`'s outer loop: read the next character, write out the
   * whole bytes pending, and test the bits left over after the last character.
   * A rejected character or a write past the end of the output ends decoding
   * with that error; otherwise the loop's invariant holds again, and the pass
   * has read a character or moved closer to stopping.
   */
  method DecodePass(e: string, rp: nat, out: seq<Byte>, outPos: nat, bitbuf: Int32, bitpos: nat, ghost done: bool)
    returns (err: Option<DecodeError>, rp': nat, out': seq<Byte>, outPos': nat, bitbuf': Int32, bitpos': nat, ghost done': bool)
    requires rp <= |e| && bitpos <= 8 && |out| == 5 * |e| / 8
    requires rp < |e| || bitpos > 0
    requires Decoder(e, rp, out, outPos, bitbuf, bitpos, done)
    ensures err.Some? ==> Decoding(e) == Failure(err.value)
    ensures err.None? ==> rp' <= |e| && bitpos' <= 8 && |out'| == |out|
    ensures err.None? ==> Decoder(e, rp', out', outPos', bitbuf', bitpos', done')
    ensures err.None? ==> rp < rp' || (rp' == rp && Stage(bitpos') < Stage(bitpos))
  {
    DecoderCases(e, rp, out, outPos, bitbuf, bitpos, done);
    rp', out', outPos', bitbuf', bitpos', done' := rp, out, outPos, bitbuf, bitpos, done;
    if rp' < |e| {
      var ok;
      ok, bitbuf' := ShiftInSymbolAt(e, rp', out', outPos', bitbuf', bitpos');
      if !ok {
        // `getValue` throws "encoding error"
        return Some(InvalidSymbol), rp', out', outPos', bitbuf', bitpos', done';
      }
      rp' := rp' + 1;
      bitpos' := bitpos' + 5;
    }
    var ok;
    ok, out', outPos', bitpos' := WriteBytes(e, rp', out', outPos', bitbuf', bitpos');
    if !ok {
      // `out[outPos++]` is out of bounds
      return Some(OutputOverrun), rp', out', outPos', bitbuf', bitpos', done';
    }
    if rp' == |e| && bitpos' > 0 {
      bitbuf', bitpos' := PadLeftover(e, out', outPos', bitbuf', bitpos');
      done' := bitpos' == 0;
    }
    err := None;
  }

  /**
   * `bitbuf.shl(8 - bitpos).and(0xff)` and the test against zero, after the
   * last character: the pending bits are dropped when they are all zero, and
   * otherwise eight are pending, to be written past the end of the output.
   */
  method PadLeftover(ghost e: string, ghost out: seq<Byte>, ghost outPos: nat, bitbuf: Int32, bitpos: nat)
    returns (a: Int32, bp: nat)
    requires 1 <= bitpos < 8 && |out| == 5 * |e| / 8
    requires Holding(e, |e|, out, outPos, bitbuf, bitpos)
    ensures outPos == |out|
    ensures bp == 0 || bp == 8
    ensures bp == 0 ==> Decoding(e) == Success(out)
    ensures bp == 8 ==> Decoding(e) == Failure(OutputOverrun)
  {
    DecodePadStep(e, out, outPos, bitbuf, bitpos);
    a := And(Shl(bitbuf, 8 - bitpos), FromInt(255));
    bp := if a == FromInt(0) then 0 else 8;
  }
}
