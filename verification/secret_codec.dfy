/**
 * `SecretCodec`: the encoder and decoder loops of the library, step for step.
 * Each keeps its pending bits in a Kotlin `Int` and moves them with the same
 * shifts and masks as the source; `CodecSteps` says what each step does.
 */
module SecretCodec {
  import opened Outcome
  import opened Bits
  import opened Kotlin
  import opened Alphabet
  import opened Crock32
  import opened CodecSteps

  /**
   * `encode`: bytes to Crockford Base32 text. Bytes are taken into the
   * register while fewer than five bits are pending; one symbol is written
   * per pass, and the last group is padded with zeros.
   */
  method Encode(bytes: seq<Byte>) returns (sb: string)
    ensures sb == Encoding(bytes)
    ensures forall i :: 0 <= i < |sb| ==> sb[i] in EncTable
  {
    sb := "";
    var size := |bytes|;
    var bitBuf := FromInt(0);
    var numBits := 0;
    var pos := 0;
    ghost var padded := false;
    while pos < size || numBits > 0
      invariant 0 <= pos <= size && 0 <= numBits <= 7
      invariant padded ==> pos == size && numBits == 0
      invariant Emitting(Pending(WireBits(bytes[..pos]), padded), sb, bitBuf, numBits)
      decreases size - pos, numBits
    {
      if pos < size && numBits < 5 {
        bitBuf := ShiftInByteAt(bytes, pos, bitBuf, numBits, sb);
        pos := pos + 1;
        numBits := numBits + 8;
      }
      if numBits < 5 {
        // zero-padding
        bitBuf := PadGroup(bitBuf, numBits, WireBits(bytes[..pos]), sb);
        numBits := 5;
        padded := true;
      }
      var c := NextSymbol(EncTable, bitBuf, numBits, Pending(WireBits(bytes[..pos]), padded), sb);
      sb := sb + [c];
      numBits := numBits - 5;
    }
    EncodeWireDone(bytes, pos, sb, bitBuf, padded);
    EncodingSymbols(bytes);
  }

  /**
   * `encode` as evidently intended: the same loop, with the byte read as the
   * unsigned value `d.toInt() and 0xff` so that its sign does not spill into
   * the bits still pending. Its text decodes back to the input.
   */
  method EncodeUnsigned(bytes: seq<Byte>) returns (sb: string)
    ensures sb == EncodeIntended(bytes)
    ensures forall i :: 0 <= i < |sb| ==> sb[i] in EncTable
    ensures Decoding(sb) == Success(bytes)
  {
    sb := "";
    var size := |bytes|;
    var bitBuf := FromInt(0);
    var numBits := 0;
    var pos := 0;
    ghost var padded := false;
    while pos < size || numBits > 0
      invariant 0 <= pos <= size && 0 <= numBits <= 7
      invariant padded ==> pos == size && numBits == 0
      invariant Emitting(Pending(BitStream(bytes[..pos]), padded), sb, bitBuf, numBits)
      decreases size - pos, numBits
    {
      if pos < size && numBits < 5 {
        bitBuf := ShiftInUnsignedByteAt(bytes, pos, bitBuf, numBits, sb);
        pos := pos + 1;
        numBits := numBits + 8;
      }
      if numBits < 5 {
        bitBuf := PadGroup(bitBuf, numBits, BitStream(bytes[..pos]), sb);
        numBits := 5;
        padded := true;
      }
      var c := NextSymbol(EncTable, bitBuf, numBits, Pending(BitStream(bytes[..pos]), padded), sb);
      sb := sb + [c];
      numBits := numBits - 5;
    }
    EncodeIntendedDone(bytes, pos, sb, bitBuf, padded);
    EncodingSymbols(bytes);
  }

  /**
   * `decode`: Crockford Base32 text to bytes. The output array has room for
   * `floor(size * 5 / 8)` bytes. A character `getValue` rejects ends decoding
   * with `InvalidSymbol`; bits left over at the end that are not all zero
   * make the loop write one byte past the end of the array, which ends it
   * with `OutputOverrun`.
   */
  method Decode(e: string) returns (r: Result<seq<Byte>, DecodeError>)
    ensures r == Decoding(e)
    ensures r.Success? ==> |r.value| == 5 * |e| / 8
  {
    var size := |e|;
    var bitpos := 0;
    var bitbuf := FromInt(0);
    var readPosition := 0;
    var outLen := 5 * size / 8;
    var out: seq<Byte> := seq(outLen, _ => 0);
    var outPos := 0;
    ghost var done := false;
    DecodeStart(e, out, bitbuf);
    while readPosition < size || bitpos > 0
      invariant readPosition <= size && bitpos <= 8 && |out| == outLen
      invariant Decoder(e, readPosition, out, outPos, bitbuf, bitpos, done)
      decreases size - readPosition, Stage(bitpos)
    {
      var err;
      err, readPosition, out, outPos, bitbuf, bitpos, done
        := DecodePass(e, readPosition, out, outPos, bitbuf, bitpos, done);
      if err.Some? {
        r := Failure(err.value);
        return;
      }
    }
    DecodeFinish(e, out, outPos, bitbuf, done);
    r := Success(out);
  }
}
