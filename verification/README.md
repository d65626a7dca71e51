# Crockford Base32 secret codec

A Dafny model of the codec the Anastasis Android library uses to turn secret
bytes into Crockford Base32 text and back (`SecretCodec.encode`,
`SecretCodec.decode` and its lookup `getValue`), and of the copy of the
encoder in the test-driver app (`Utils.encodeSecretToBase32`).

The model has two layers:

- **What is computed.** `Crock32` states the codec over bit strings.
  - `Encoding` cuts the bits the encoder reads into groups of five, pads the last group with zeros, and writes one table symbol per group.
  - `Decoding` reads five bits per symbol, packs them into bytes, and fails when a character is not a symbol or when the leftover bits are not all zero.
  - `Alphabet` holds the table and `getValue`, which ignores case and reads the look-alikes o/O, i/I/l/L and u/U.
- **How it is computed.** `SecretCodec.Encode`, `SecretCodec.Decode` and `Utils.EncodeSecretToBase32` follow the Kotlin loops step for step.
  - The pending bits are kept in a 32-bit `Int`, modelled in `Kotlin` as a sequence of 32 bits with Kotlin's `shl`, `ushr`, `shr`, `and`, `or`, `toInt` and `toByte`.
  - `Register` says what each shift-and-mask does to the pending bits.
  - `CodecSteps` says that each pass of each loop keeps the loop's invariant.
  - The methods are proved to return exactly `Encoding` and `Decoding`.

`Byte.toInt()` sign-extends. So when the encoder reads a negative byte, it
sets the bits of the previous byte that are still waiting in its register.
`Crock32.WireBits` is the bit string the encoder really encodes. Decoding its
output gives back the input when no byte is negative. It fails to when a
negative byte is read while bits of the previous byte that are not all ones
are still pending (see Findings). `Crock32.RoundTripExactly` states the exact
condition: the bits read are the input's own bits. So [0xFF], read with
nothing pending, still round-trips.
`SecretCodec.EncodeUnsigned` is the loop with the byte masked to its
unsigned value, and it round-trips every input.

The codec follows the code in three places where a looser reading might differ:
- When decoding, leftover bits that are not all zero do not get dropped. They make the loop store one byte past the end of its array, which is modelled as the error `OutputOverrun`.
- When decoding, a rejected character is reported without its position.
- When encoding, the byte 0xFF is written "ZW": its eight ones and two zeros of padding are the groups 31 and 28.

The register is a sequence of 32 booleans rather than a `bv32`. This way every
shift is a slice of that sequence and every mask is a pointwise `and`, so a
statement about the pending bits is a statement about a sequence, with no
bit-vector arithmetic for the solver to reason about. Kotlin's rule that a
shift uses only the low five bits of its amount is written out as `s % 32`.
`Byte` is the integer range -128..127, because the codec reads bytes as
signed values.

## Model

| member | source | states |
|---|---|---|
| SecretCodec.Encode | taler-integration-demo-apps/anastasis-lib/src/main/java/net/taler/anastasislib/utils/SecretCodec.kt:30-52 | the encoder loop, run on the 32-bit register, returns exactly the table symbols of the bits it reads (each byte sign-extended into the pending bits), padded with zeros to whole groups of five, so every character it emits is a symbol of the table; what decoding that text gives is stated by Crock32.EncodingDecodes |
| SecretCodec.Decode | taler-integration-demo-apps/anastasis-lib/src/main/java/net/taler/anastasislib/utils/SecretCodec.kt:57-82 | the decoder returns exactly the reference decoding, and on success floor(5·size/8) bytes; it fails with InvalidSymbol when a character is rejected and with OutputOverrun when the leftover bits are not zero (Crock32.DecodingCharacterized states what a success holds) |
| SecretCodec.EncodeUnsigned | taler-integration-demo-apps/anastasis-lib/src/main/java/net/taler/anastasislib/utils/SecretCodec.kt:36-50 | the same loop with the byte read as `d.toInt() and 0xff` writes the symbols of the input's own bits, every one from the table, and decoding that text gives back every input |
| Utils.EncodeSecretToBase32 | taler-integration-demo-apps/anastasis-test-driver-app/src/main/java/net/taler/anastasistestdriverapp/utils/Utils.kt:22-46 | the app's copy of the encoder, reading symbols from its own table, produces the same text as the library's encoder (because the two tables are equal), every character drawn from the app's own table |
| Alphabet.GetValue | taler-integration-demo-apps/anastasis-lib/src/main/java/net/taler/anastasislib/utils/SecretCodec.kt:84-104 | a character has a value exactly when it is an ASCII digit or letter, and every value lies in 0..31 |
| Alphabet.GetValueIsTableIndex | taler-integration-demo-apps/anastasis-lib/src/main/java/net/taler/anastasislib/utils/SecretCodec.kt:84-104 | getValue yields v exactly when the character, after case folding and look-alike substitution, is the table's symbol at position v |
| Alphabet.TableValues | taler-integration-demo-apps/anastasis-lib/src/main/java/net/taler/anastasislib/utils/SecretCodec.kt:25 | the table has 32 symbols and getValue reads each one back as its own position |
| Alphabet.TableIsSymbols | taler-integration-demo-apps/anastasis-lib/src/main/java/net/taler/anastasislib/utils/SecretCodec.kt:25 | the table is the ten digits followed by the letters A-Z without I, L, O and U |
| Alphabet.CaseInsensitive | taler-integration-demo-apps/anastasis-lib/src/main/java/net/taler/anastasislib/utils/SecretCodec.kt:94 | a lower-case letter has the value of its upper-case form |
| Alphabet.CanonicalValue | taler-integration-demo-apps/anastasis-lib/src/main/java/net/taler/anastasislib/utils/SecretCodec.kt:85-94 | a character has the value of its canonical form (look-alikes replaced, upper case), and canonicalising is idempotent |
| Crock32.Decoding | taler-integration-demo-apps/anastasis-lib/src/main/java/net/taler/anastasislib/utils/SecretCodec.kt:57-82 | decoding fails with InvalidSymbol exactly when some character is not a symbol; a success has floor(5·size/8) bytes |
| Crock32.DecodingCharacterized | taler-integration-demo-apps/anastasis-lib/src/main/java/net/taler/anastasislib/utils/SecretCodec.kt:57-82 | decoding yields b exactly when every character is valid and the symbols' bits are b's bits followed by fewer than eight zero bits |
| Crock32.DecodeEncoding | taler-integration-demo-apps/anastasis-lib/src/main/java/net/taler/anastasislib/utils/SecretCodec.kt:30-82 | decoding what encode writes always succeeds, and yields the bytes of the bits the encoder actually read |
| Crock32.EncodingDecodes | taler-integration-demo-apps/anastasis-lib/src/main/java/net/taler/anastasislib/utils/SecretCodec.kt:30-82 | decode after encode yields the bytes of the bits the encoder read, and the input itself when no byte is negative |
| Crock32.RoundTripNonNegative | taler-integration-demo-apps/anastasis-lib/src/main/java/net/taler/anastasislib/utils/SecretCodec.kt:30-82 | input with no negative byte is recovered exactly by decode after encode |
| Crock32.RoundTripExactly | taler-integration-demo-apps/anastasis-lib/src/main/java/net/taler/anastasislib/utils/SecretCodec.kt:30-82 | decode after encode gives back the input exactly when the bits the encoder reads are the input's own bits, which sign extension breaks only when a negative byte meets pending bits that are not all ones |
| Crock32.RoundTripFullByte | taler-integration-demo-apps/anastasis-lib/src/main/java/net/taler/anastasislib/utils/SecretCodec.kt:39 | a negative byte read with no bits pending does no harm: [0xFF] is recovered by decode after encode |
| Crock32.RoundTripIntended | taler-integration-demo-apps/anastasis-lib/src/main/java/net/taler/anastasislib/utils/SecretCodec.kt:30-82 | every input is recovered exactly when its own bits are encoded |
| Crock32.WireBitsNonNegative | taler-integration-demo-apps/anastasis-lib/src/main/java/net/taler/anastasislib/utils/SecretCodec.kt:39 | with no negative byte, the bits the encoder reads are exactly the input's bits |
| Crock32.EncodingLength | taler-integration-demo-apps/anastasis-lib/src/main/java/net/taler/anastasislib/utils/SecretCodec.kt:36-50 | the text has ceil(8·n/5) symbols for n input bytes |
| Crock32.EncodingSymbols | taler-integration-demo-apps/anastasis-lib/src/main/java/net/taler/anastasislib/utils/SecretCodec.kt:25-48 | every character encode writes, as written or with the byte read unsigned, is one of the 32 symbols of the table, never a look-alike that getValue also accepts |
| Crock32.DecodingCanonical | taler-integration-demo-apps/anastasis-lib/src/main/java/net/taler/anastasislib/utils/SecretCodec.kt:85-94 | two texts of the same length whose characters at each position have the same canonical form (o/O read as 0, i/I/l/L as 1, u/U as V, then lower case raised to upper case) decode to the same result |
| Crock32.DecodingEmpty | taler-integration-demo-apps/anastasis-lib/src/main/java/net/taler/anastasislib/utils/SecretCodec.kt:57-82 | the empty text decodes to no bytes |
| Crock32.DecodingOverrun | taler-integration-demo-apps/anastasis-lib/src/main/java/net/taler/anastasislib/utils/SecretCodec.kt:76-78 | the one-symbol text "1" leaves non-zero bits over and ends in the overrun error |
| Crock32.EncodingEmpty | taler-integration-demo-apps/anastasis-lib/src/main/java/net/taler/anastasislib/utils/SecretCodec.kt:36 | no bytes give the empty text |
| Crock32.EncodingZeroByte | taler-integration-demo-apps/anastasis-lib/src/main/java/net/taler/anastasislib/utils/SecretCodec.kt:30-52 | the byte 0x00 is written "00" |
| Crock32.EncodingOneByte | taler-integration-demo-apps/anastasis-lib/src/main/java/net/taler/anastasislib/utils/SecretCodec.kt:30-52 | the byte 0x01 is written "04" |
| Crock32.EncodingFullByte | taler-integration-demo-apps/anastasis-lib/src/main/java/net/taler/anastasislib/utils/SecretCodec.kt:30-52 | the byte 0xFF is written "ZW" |
| Crock32.EncodingThreeBytes | taler-integration-demo-apps/anastasis-lib/src/main/java/net/taler/anastasislib/utils/SecretCodec.kt:30-52 | the bytes [0x01, 0x02, 0x03] are written "04106": their 24 bits and one bit of padding are the groups 0, 4, 1, 0 and 6 |
| Crock32.SignExtensionCounterexample | taler-integration-demo-apps/anastasis-lib/src/main/java/net/taler/anastasislib/utils/SecretCodec.kt:39 | [0x00, 0xFF] is written "0ZZG", which decodes to [0x07, 0xFF]; its own bits would be written "03ZG", which decodes back to [0x00, 0xFF] |
| Crock32.BitStreamPack | taler-integration-demo-apps/anastasis-lib/src/main/java/net/taler/anastasislib/utils/SecretCodec.kt:71-75 | bits packed into bytes eight at a time are recovered from those bytes |
| Crock32.PackBitStream | taler-integration-demo-apps/anastasis-lib/src/main/java/net/taler/anastasislib/utils/SecretCodec.kt:71-75 | bytes written out as bits and packed again are recovered |
| Kotlin.SignExtension | taler-integration-demo-apps/anastasis-lib/src/main/java/net/taler/anastasislib/utils/SecretCodec.kt:39 | `Byte.toInt()` keeps the byte's eight bits at the bottom and fills the 24 bits above with its sign |
| Kotlin.ByteRoundTrip | taler-integration-demo-apps/anastasis-lib/src/main/java/net/taler/anastasislib/utils/SecretCodec.kt:72 | `toByte()` of a byte's eight bits gives the byte back |
| Register.ShiftInByte | taler-integration-demo-apps/anastasis-lib/src/main/java/net/taler/anastasislib/utils/SecretCodec.kt:39 | `bitBuf shl 8 or d.toInt()` appends the byte's bits to the pending bits, and a negative byte turns the pending bits into ones |
| Register.ShiftInMaskedByte | taler-integration-demo-apps/anastasis-lib/src/main/java/net/taler/anastasislib/utils/SecretCodec.kt:39 | with the byte masked by 0xff, the shift appends its bits and leaves the pending bits as they were |
| Register.TakeSymbol | taler-integration-demo-apps/anastasis-lib/src/main/java/net/taler/anastasislib/utils/SecretCodec.kt:47 | `bitBuf ushr (numBits - 5) and 31` is the number the top five pending bits denote, an index into the table |
| Register.PadSymbol | taler-integration-demo-apps/anastasis-lib/src/main/java/net/taler/anastasislib/utils/SecretCodec.kt:44 | `bitBuf shl (5 - numBits)` pads the pending bits with zeros to one group of five |
| Register.ShiftInSymbol | taler-integration-demo-apps/anastasis-lib/src/main/java/net/taler/anastasislib/utils/SecretCodec.kt:68 | `bitbuf shl 5 or v` appends the five bits of v to the pending bits |
| Register.TakeByte | taler-integration-demo-apps/anastasis-lib/src/main/java/net/taler/anastasislib/utils/SecretCodec.kt:72 | `(bitbuf shr (bitpos - 8) and 0xff).toByte()` is the byte formed by the top eight pending bits |
| Register.PadByte | taler-integration-demo-apps/anastasis-lib/src/main/java/net/taler/anastasislib/utils/SecretCodec.kt:77-78 | `bitbuf shl (8 - bitpos) and 0xff` is zero exactly when the leftover bits are all zero |
| CodecSteps.EncodeReadStep | taler-integration-demo-apps/anastasis-lib/src/main/java/net/taler/anastasislib/utils/SecretCodec.kt:37-41 | reading one byte keeps the encoder's invariant for one more byte of the bits it reads |
| CodecSteps.EncodeMaskedReadStep | taler-integration-demo-apps/anastasis-lib/src/main/java/net/taler/anastasislib/utils/SecretCodec.kt:37-41 | reading one masked byte keeps the invariant for one more byte of the input's own bits |
| CodecSteps.EncodePadStep | taler-integration-demo-apps/anastasis-lib/src/main/java/net/taler/anastasislib/utils/SecretCodec.kt:42-46 | padding the last pending bits keeps the invariant for the zero-padded bit string |
| CodecSteps.EncodeEmitStep | taler-integration-demo-apps/anastasis-lib/src/main/java/net/taler/anastasislib/utils/SecretCodec.kt:47-49 | writing the symbol of the top five pending bits extends the text by that group's symbol and keeps the invariant |
| CodecSteps.EncodeFinish | taler-integration-demo-apps/anastasis-lib/src/main/java/net/taler/anastasislib/utils/SecretCodec.kt:36-51 | when the loop stops with no pending bits, the text is the symbols of all the bits read, padded |
| CodecSteps.EncodeWireDone | taler-integration-demo-apps/anastasis-lib/src/main/java/net/taler/anastasislib/utils/SecretCodec.kt:36-51 | when the encoder loop has read every byte and holds no pending bits, the text is the encoding, and it decodes to the bytes of the bits read, which are the input when no byte is negative |
| CodecSteps.EncodeIntendedDone | taler-integration-demo-apps/anastasis-lib/src/main/java/net/taler/anastasislib/utils/SecretCodec.kt:36-51 | when the corrected loop has read every byte and holds no pending bits, the text encodes the input's own bits and decodes back to the input |
| CodecSteps.DecodeReadStep | taler-integration-demo-apps/anastasis-lib/src/main/java/net/taler/anastasislib/utils/SecretCodec.kt:66-70 | reading one valid character keeps the decoder's invariant for one more symbol |
| CodecSteps.DecodeInvalid | taler-integration-demo-apps/anastasis-lib/src/main/java/net/taler/anastasislib/utils/SecretCodec.kt:103 | a character getValue rejects makes the whole decoding fail with InvalidSymbol |
| CodecSteps.DecodeRoom | taler-integration-demo-apps/anastasis-lib/src/main/java/net/taler/anastasislib/utils/SecretCodec.kt:71-73 | while eight or more bits are pending, the output array has room for the next byte |
| CodecSteps.DecodeWriteStep | taler-integration-demo-apps/anastasis-lib/src/main/java/net/taler/anastasislib/utils/SecretCodec.kt:71-75 | storing the top eight pending bits as a byte keeps the invariant with one byte more written |
| CodecSteps.DecodePadStep | taler-integration-demo-apps/anastasis-lib/src/main/java/net/taler/anastasislib/utils/SecretCodec.kt:76-79 | at the end, the output is full, and the padding test is zero exactly when decoding succeeds with the bytes written |
| CodecSteps.DecodeDone | taler-integration-demo-apps/anastasis-lib/src/main/java/net/taler/anastasislib/utils/SecretCodec.kt:80-81 | when no bits are left over, the array returned is the decoding |
| CodecSteps.DecodeFinish | taler-integration-demo-apps/anastasis-lib/src/main/java/net/taler/anastasislib/utils/SecretCodec.kt:80-81 | when the outer loop stops without error, the array returned is the decoding and its bits are the symbols' bits less the zero padding |
| CodecSteps.ShiftInByteAt | taler-integration-demo-apps/anastasis-lib/src/main/java/net/taler/anastasislib/utils/SecretCodec.kt:38-40 | the read step as code: the new register holds the pending bits of one more byte |
| CodecSteps.ShiftInUnsignedByteAt | taler-integration-demo-apps/anastasis-lib/src/main/java/net/taler/anastasislib/utils/SecretCodec.kt:38-40 | the masked read step as code: the new register holds the pending bits of one more byte of the input's own bits |
| CodecSteps.PadGroup | taler-integration-demo-apps/anastasis-lib/src/main/java/net/taler/anastasislib/utils/SecretCodec.kt:44-45 | the padding step as code: the register holds one whole zero-padded group |
| CodecSteps.NextSymbol | taler-integration-demo-apps/anastasis-lib/src/main/java/net/taler/anastasislib/utils/SecretCodec.kt:47-48 | the emit step as code, looking the symbol up in the caller's copy of the table: the symbol is from the table and is the next symbol of the encoding |
| CodecSteps.ShiftInSymbolAt | taler-integration-demo-apps/anastasis-lib/src/main/java/net/taler/anastasislib/utils/SecretCodec.kt:67-69 | the read step as code: an invalid character means the decoding is InvalidSymbol; otherwise the register holds five more bits of the text |
| CodecSteps.WriteBytes | taler-integration-demo-apps/anastasis-lib/src/main/java/net/taler/anastasislib/utils/SecretCodec.kt:71-75 | while the decoder's invariant holds, the inner loop stores every whole pending byte and leaves fewer than eight bits pending; it reports a store past the end exactly when a byte is pending and the array is already full |
| CodecSteps.PadLeftover | taler-integration-demo-apps/anastasis-lib/src/main/java/net/taler/anastasislib/utils/SecretCodec.kt:76-79 | the padding step as code: 0 bits pending means the decoding succeeds with the bytes written; 8 means it overruns |
| CodecSteps.DecodePass | taler-integration-demo-apps/anastasis-lib/src/main/java/net/taler/anastasislib/utils/SecretCodec.kt:66-79 | one pass of the outer loop either ends decoding with the error the source raises, or keeps the loop invariant having read a character or come closer to stopping |

## Left out

- `outLen` is computed in the source as `floor((size * 5f) / 8)` in single-precision floating point. The model uses the exact integer 5·size/8. The two agree while 5·size is exactly representable as a `Float`, in particular for texts of up to 3,355,443 characters.
- The source raises exceptions. `getValue` throws `Error("encoding error")` and an out-of-range store throws `ArrayIndexOutOfBoundsException`. The model returns the values `InvalidSymbol` and `OutputOverrun` instead, with no message, position or stack.
- `ByteArray` and `String` are modelled as immutable sequences. Building the text with `sb +=`, which copies it once per symbol, is cost only and is not modelled.
- `Utils.resolveDocFilename` reads a path segment of an Android `Uri`. It is not part of the codec and is not part of this model.
- `SecretCodec.Decode`: no claim is made for inputs on which the source's `size * 5f` would round, because of the `outLen` approximation above.

## Findings

| source | as written | input that shows it | evidently intended | confidence | as-written member | corrected member |
|---|---|---|---|---|---|---|
| taler-integration-demo-apps/anastasis-lib/src/main/java/net/taler/anastasislib/utils/SecretCodec.kt:39 (the same line is Utils.kt:33) | `bitBuf.shl(8).or(d.toInt())` sign-extends a negative byte, so the 1 to 4 bits of the previous byte still pending in `bitBuf` are set to ones | [0x00, 0xFF] is encoded as "0ZZG", which decodes to [0x07, 0xFF] | the byte is read unsigned (`d.toInt() and 0xff`): [0x00, 0xFF] is encoded as "03ZG" and every input round-trips | not executed | Crock32.SignExtensionCounterexample | SecretCodec.EncodeUnsigned |
