# LZW payload compression and MSL utilities, in Dafny

This project models two parts of the MSL (Message Security Layer) code base.

**The LZW codec** (`LzwCompression.compress` / `uncompress`). The library uses it to shrink message payloads. Its contract is fixed by the byte vectors of `LzwCompressionTest.js`. The codec works as follows:

- Codes 0-255 stand for single bytes.
- Each new "match + next byte" gets the next code from 256 up.
- Each code is written most significant bit first.
- A code is as wide as the bit length of the largest code assigned so far. The first code is therefore 8 bits, and codes become 9 bits once code 256 exists. The tests fix only these two widths; the later transitions are a convention, listed under "Left out".
- The last byte is padded with zeros.
- `compress` returns `null` (here `None`) when the packed form is longer than its input.
- The decoder rebuilds the dictionary one entry behind the encoder. It accepts the code that is about to be assigned (the "KwKwK" case).
- The decoder fails when the output would exceed `input.length * maxDeflateRatio`. This guards against decompression bombs.

**Three helpers of `MslUtils.java`:**

- `safeEquals`: a byte-array comparison with no early exit;
- `isPowerOf2`: the `n & (n - 1)` test on a 64-bit long;
- `getRandomLong`: the draw-mask-retry loop.

The modules are:

| module | file | what it holds |
|---|---|---|
| `Results` | results.dfy | `Option` and `Result` |
| `Bits` | bits.dfy | numbers as MSB-first bit strings, bytes to bits, packing with zero padding |
| `LzwDictionary` | lzw_dictionary.dfy | the literal dictionary, dictionary size and code width at each stream index, and what it means for codes to be a valid LZW encoding of a list of phrases |
| `LzwEncoder` | lzw_encoder.dfy | the reference encoder (`EncodeFrom`, `EncodeCodes`, `CodeBits`, `Encode`, `Compressed`), with the proof that its codes are a valid encoding of the input |
| `LzwDecoder` | lzw_decoder.dfy | the reference decoder (`ReadCodes`, `DecodeFrom`, `DecodeCodes`, `Uncompressed`), with the proof that it inverts every valid encoding and that the ratio only decides fit or `RatioExceeded` |
| `LzwProperties` | lzw_properties.dfy | round trip, the no-expansion guarantee, one-byte pass-through, and the ratio guard on whole streams |
| `LzwCodec` | lzw_codec.dfy | the imperative codec: a `BitWriter` class with fields updated in place, the encoder loop over a mutable map, the bit-by-bit reader and the decoder loop. Each is proved equal to the reference definitions. |
| `LzwVectors` | lzw_vectors.dfy | every byte vector of the test file, proved about the reference definitions |
| `MslUtils` | msl_utils.dfy | `safeEquals`, `isPowerOf2` and `getRandomLong` |

## Model

| member | source | states |
|---|---|---|
| LzwCodec.Compress | tests/src/test/javascript/util/LzwCompressionTest.js:27-32 | The method's result is the reference `Compressed(data)`. It depends on `data` alone, so the instance shared by all tests carries nothing from one call to the next. |
| LzwCodec.Uncompress | tests/src/test/javascript/util/LzwCompressionTest.js:57-60 | The loop that reads codes bit by bit and grows the table returns exactly `Uncompressed(input, maxDeflateRatio)`, including both errors. |
| LzwCodec.WriteCodes | tests/src/test/javascript/util/LzwCompressionTest.js:39-55 | The encoder loop over a mutable dictionary writes exactly the bits of the reference codes, each at its width. |
| LzwCodec.BitWriter.WriteCode | tests/src/test/javascript/util/LzwCompressionTest.js:39-46 | Writing a code appends its `width` bits, most significant first, to the stream already written. |
| LzwCodec.BitWriter.Flush | tests/src/test/javascript/util/LzwCompressionTest.js:39-46 | The bytes handed out are the written bits packed into bytes, with the last byte zero-padded. The writer is left valid, holding exactly those bytes and no pending bits: its stream is the old one plus the zero padding. |
| LzwCodec.ReadCode | tests/src/test/javascript/util/LzwCompressionTest.js:65-83 | Reading `width` bits at bit position `pos` gives their MSB-first value. |
| LzwCodec.NextCode | tests/src/test/javascript/util/LzwCompressionTest.js:65-83 | Reading at the width of stream index k gives the k-th code of the reference split and advances by that width. |
| LzwCodec.DecodeRest | tests/src/test/javascript/util/LzwCompressionTest.js:85-101 | After the first 8-bit literal, the decoder loop gives the reference `DecodeFrom` result. |
| LzwCodec.DecodeStep | tests/src/test/javascript/util/LzwCompressionTest.js:85-101 | One pass of the decoder loop either finishes with the reference result or moves forward while keeping the decoding invariant. |
| LzwEncoder.EncodeCodesValid | tests/src/test/javascript/util/LzwCompressionTest.js:39-55 | The encoder's codes name a list of phrases whose concatenation is the input. Each code is a literal, an existing entry, or the entry assigned just before it, in the order the dictionary grows. |
| LzwEncoder.EncodeFrom | tests/src/test/javascript/util/LzwCompressionTest.js:39-55 | Scanning from byte i emits at least one more code and at most one per remaining byte, after the codes already emitted. |
| LzwEncoder.CodeBitsAppend | tests/src/test/javascript/util/LzwCompressionTest.js:39-55 | A further code adds exactly its own bits at the width for its index. |
| LzwEncoder.CodeBitsLength | tests/src/test/javascript/util/LzwCompressionTest.js:39-55 | Every code takes at least 8 bits. |
| LzwDictionary.CodeWidthFirst | tests/src/test/javascript/util/LzwCompressionTest.js:29-37 | The first code is 8 bits wide. |
| LzwDictionary.CodeWidthNine | tests/src/test/javascript/util/LzwCompressionTest.js:39-55 | Codes 1 to 256 of a stream are 9 bits wide. |
| LzwDecoder.DecodeFrom | tests/src/test/javascript/util/LzwCompressionTest.js:85-101 | The decoder only ever appends to its output. If the output fits the limit when a step starts, the final result does too. |
| LzwDecoder.DecodeCodes | tests/src/test/javascript/util/LzwCompressionTest.js:85-101 | A successful decode is never longer than the limit. |
| LzwDecoder.Uncompressed | tests/src/test/javascript/util/LzwCompressionTest.js:85-101 | A successful `uncompress` output is at most `input.length * maxDeflateRatio` bytes. |
| LzwDecoder.DecodeCodesValid | tests/src/test/javascript/util/LzwCompressionTest.js:85-98 | Any valid encoding decodes to the concatenation of its phrases when that fits the limit. This includes codes that name the entry not yet built (the KwKwK case the zero run exercises). |
| LzwDecoder.DecodeCodesLimit | tests/src/test/javascript/util/LzwCompressionTest.js:96-100 | If a stream decodes under one limit, then under any other limit it gives the same output when it fits and `RatioExceeded` when it does not. |
| LzwProperties.ReadEncoded | tests/src/test/javascript/util/LzwCompressionTest.js:65-83 | Splitting the packed stream of any input at the index-based widths gives back exactly the encoder's codes. The zero padding is skipped. |
| LzwProperties.ReadCodesBack | tests/src/test/javascript/util/LzwCompressionTest.js:65-83 | Codes that fit their widths are read back from their bits, whatever padding of fewer than 8 bits follows. |
| LzwProperties.RoundTrip | tests/src/test/javascript/util/LzwCompressionTest.js:103-130 | For every input, uncompressing its packed form gives the input back when its length is at most `packed.length * ratio`, and `RatioExceeded` otherwise. |
| LzwProperties.CompressedRoundTrip | tests/src/test/javascript/util/LzwCompressionTest.js:103-130 | A non-null `compress` result is no longer than the input. It uncompresses back to the input under every ratio that admits it. |
| LzwProperties.UncompressedRatio | tests/src/test/javascript/util/LzwCompressionTest.js:96-100 | For any input that uncompresses to o, uncompressing under any ratio gives o when `|o| <= input.length * ratio` and `RatioExceeded` otherwise. |
| LzwProperties.EncodeOneByte | tests/src/test/javascript/util/LzwCompressionTest.js:29-37 | One byte is encoded as the single code equal to it and packs into exactly that byte. |
| LzwProperties.SingleBytePassThrough | tests/src/test/javascript/util/LzwCompressionTest.js:29-37 | For every byte b, `compress([b]) == [b]` and `uncompress([b], ratio) == [b]` (ratio at least 1). |
| LzwProperties.UncompressOneByte | tests/src/test/javascript/util/LzwCompressionTest.js:57-63 | Any single byte uncompresses to itself under any ratio of at least 1. |
| LzwProperties.EncodeAtLeastTwo | tests/src/test/javascript/util/LzwCompressionTest.js:103-130 | Two or more input bytes pack into at least two bytes. |
| LzwVectors.OneByte | tests/src/test/javascript/util/LzwCompressionTest.js:29-37 | `compress([0x1f]) == [0x1f]` and `uncompress([0xf1], 200) == [0xf1]`. |
| LzwVectors.TwoBytes | tests/src/test/javascript/util/LzwCompressionTest.js:39-46 | `[0x66, 0x67]` packs to `[0x66, 0x33, 0x80]`, so `compress` is null. That stream uncompresses back under ratio 200 (lines 65-73). |
| LzwVectors.ThreeBytes | tests/src/test/javascript/util/LzwCompressionTest.js:48-55 | `[0x61, 0xd7, 0xb1]` packs to `[0x61, 0x6b, 0xac, 0x40]`, so `compress` is null. That stream uncompresses back under ratio 200 (lines 75-83). |
| LzwVectors.ZeroRunCodes | tests/src/test/javascript/util/LzwCompressionTest.js:91-94 | Write n zeros as 1 + 2 + ... + m + r with 1 <= r <= m + 1. Then the codes are those of the runs of 1, 2, ..., m zeros, followed by the code of the run of r. |
| LzwVectors.ZeroRun | tests/src/test/javascript/util/LzwCompressionTest.js:85-101 | `compress` of 1024 zeros is exactly the 51 bytes of the test. These uncompress to the 1024 zeros under ratio 200 and fail with `RatioExceeded` under ratio 10. |
| LzwVectors.ShortRoundTrip | tests/src/test/javascript/util/LzwCompressionTest.js:103-130 | An input of 2 to 2 * ratio bytes comes back from any non-null result of `compress`. |
| LzwVectors.XmlRoundTrip | tests/src/test/javascript/util/LzwCompressionTest.js:103-130 | The 292-byte XML request comes back from `uncompress(compress(data), 200)` whenever `compress` returns a result. |
| MslUtils.SafeEquals | core/src/main/java/com/netflix/msl/util/MslUtils.java:35-43 | The result is true exactly when the arrays are equal. Different lengths give false before the loop. Equal lengths visit every index, with no early exit. |
| MslUtils.WidenXor | core/src/main/java/com/netflix/msl/util/MslUtils.java:41 | The XOR of two sign-extended bytes is zero exactly when the bytes are equal. |
| MslUtils.IsPowerOf2 | core/src/main/java/com/netflix/msl/util/MslUtils.java:52-58 | Every negative long gives false, and zero gives true. |
| MslUtils.PowerOf2Exactly | core/src/main/java/com/netflix/msl/util/MslUtils.java:45-58 | `isPowerOf2(n)` holds exactly when n is zero or a positive power of two. |
| MslUtils.AndPredecessor | core/src/main/java/com/netflix/msl/util/MslUtils.java:53-57 | For n > 0, `n & (n - 1)` is zero exactly when n is a power of two. |
| MslUtils.And64 | core/src/main/java/com/netflix/msl/util/MslUtils.java:57 | The AND of two longs lies between 0 and any non-negative operand. |
| MslUtils.Masked | core/src/main/java/com/netflix/msl/util/MslUtils.java:80-83 | With a positive power of two as the maximum, a masked draw lies in [0, max). Otherwise the draw is unchanged. |
| MslUtils.GetRandomLong | core/src/main/java/com/netflix/msl/util/MslUtils.java:68-88 | The result lies in [0, max] and is the first accepted (masked) draw; every earlier draw was rejected. With a positive power of two as the maximum, the loop stops after one draw. |

## Left out

- `LzwCompression.js` is not part of this model. The codec is built from the behaviour the test vectors fix.
- Conventions the tests do not fix:
  - at most 65536 codes (16-bit codes);
  - the dictionary stops growing when full, with no reset;
  - a code beyond the next one to be assigned is `UndefinedCode`;
  - empty input compresses to empty output, and uncompressing empty input gives empty output;
  - codes widen to 10 bits once code 512 has been assigned, that is, at the width of the largest code so far. An "early change" encoder would widen one code sooner. The vectors only reach 8- and 9-bit codes (the zero run ends with next free code 300), so they cannot tell the two apart.

  The vectors do not depend on any of these.
- Only a packed form strictly longer than the input gives null. The one-byte test (LzwCompressionTest.js:29-37) gets back a result of equal length.
- The maximum deflate ratio is a natural number. A ratio of 0 refuses every non-empty output, so `SingleBytePassThrough` and `UncompressOneByte` require a ratio of at least 1.
- `MslIoException` becomes the error value of a `Result`. Neither the exception class nor the test framework is modelled.
- LzwVectors.XmlRoundTrip: does not state whether `compress` of the XML request is null. The test only checks the round trip, and the model does not evaluate the 292-byte encoding.
- LzwCodec.Compress: works on an immutable input sequence and returns a fresh sequence. The typed arrays of the source are not modelled as aliased buffers.
- `safeEquals` timing: only its structure is modelled (every index visited, no early exit). `visited` is a ghost count of the iterations.
- `getRandomLong` randomness: the `Random` source becomes the sequence of longs it would return, and no distribution is modelled.
- MslUtils.GetRandomLong: returns `None` when the supplied draws run out. The source loops for as long as it needs.
- `MslConstants.MAX_LONG_VALUE` is not part of this model. It is the `maxValue` parameter.
- Suppose `MAX_LONG_VALUE` is a positive power of two. Then the mask `MAX_LONG_VALUE - 1` keeps every result strictly below it (`MslUtils.Masked`), so `getRandomLong` never returns `MAX_LONG_VALUE` itself, although its Javadoc (MslUtils.java:61-66) says the range is inclusive. Whether that case arises depends on `MslConstants`, which is not shown.
- `EccCryptoContext.h` holds only declarations around a foreign crypto library, with no logic to model.
