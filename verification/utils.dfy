/**
 * `Utils` of the test-driver app: a second copy of the Crockford Base32
 * table and of the encoder loop. It is modelled with the same loop blocks as
 * `SecretCodec.Encode`, and it computes the same text.
 */
module Utils {
  import opened Kotlin
  import opened Alphabet
  import opened Crock32
  import opened CodecSteps

  /** The app's own copy of `encTableCrock`. */
  const EncTableCrock: string := "0123456789ABCDEFGHJKMNPQRSTVWXYZ"

  /** `encodeSecretToBase32`: the same loop as the library's `encode`, symbol for symbol. */
  method EncodeSecretToBase32(bytes: seq<Byte>) returns (sb: string)
    ensures sb == Encoding(bytes)
    ensures forall i :: 0 <= i < |sb| ==> sb[i] in EncTableCrock
  {
    assert EncTableCrock == EncTable;
    sb := "";
    var size := |bytes|;
    var bitBuf := FromInt(0);
    var numBits := 0;
    var pos := 0;
    ghost var padded := false;
    while pos < size || numBits > 0
      invariant 0 <= pos <= size && 0 <= numBits <= 7
      invariant padded ==> pos == size && numBits == 0
      invariant Emitting(Pending(WireBits(bytes[..pos]), padded), sb, bitBuf, numBits)
      invariant forall i :: 0 <= i < |sb| ==> sb[i] in EncTableCrock
      decreases size - pos, numBits
    {
      if pos < size && numBits < 5 {
        bitBuf := ShiftInByteAt(bytes, pos, bitBuf, numBits, sb);
        pos := pos + 1;
        numBits := numBits + 8;
      }
      if numBits < 5 {
        // zero-padding
        bitBuf := PadGroup(bitBuf, numBits, WireBits(bytes[..pos]), sb);
        numBits := 5;
        padded := true;
      }
      var c := NextSymbol(EncTableCrock, bitBuf, numBits, Pending(WireBits(bytes[..pos]), padded), sb);
      sb := sb + [c];
      numBits := numBits - 5;
    }
    EncodeWireDone(bytes, pos, sb, bitBuf, padded);
  }
}
