/**
 * What `compress` and `uncompress` promise together: every packed stream the encoder
 * writes decodes to its input whenever the ratio allows it and is refused with
 * RatioExceeded otherwise; a result of `compress` never expands the data; one byte
 * passes through both unchanged.
 */
module LzwProperties {
  import opened Bits
  import opened Results
  import opened LzwDictionary
  import opened LzwEncoder
  import opened LzwDecoder

  /** Every code from stream index i on is below 2 to the power of its width. */
  ghost predicate FitWidths(codes: seq<nat>, i: nat)
    decreases |codes|
  {
    codes == [] || (codes[0] < Pow2(CodeWidth(i)) && FitWidths(codes[1..], i + 1))
  }

  /** One code is read from the front of a stream that holds at least its width. */
  lemma ReadCodesStep(bits: seq<bool>, i: nat)
    requires |bits| >= CodeWidth(i)
    ensures ReadCodes(bits, i) == [BitsValue(bits[..CodeWidth(i)])] + ReadCodes(bits[CodeWidth(i)..], i + 1)
  {
  }

  /** Codes that fit their widths are read back from their stream, whatever padding (under a byte) follows. */
  lemma {:induction false} ReadCodesBack(codes: seq<nat>, i: nat, pad: seq<bool>)
    requires FitWidths(codes, i)
    requires |pad| < 8
    ensures ReadCodes(CodeBits(codes, i) + pad, i) == codes
    decreases |codes|
  {
    CodeWidthBounds(i);
    var w := CodeWidth(i);
    if codes == [] {
      assert CodeBits(codes, i) + pad == pad;
    } else {
      AppendAssoc(BitsOf(codes[0], w), CodeBits(codes[1..], i + 1), pad);
      ReadCodesFront(codes[0], CodeBits(codes[1..], i + 1) + pad, i);
      ReadCodesBack(codes[1..], i + 1, pad);
      ConsTail(codes);
    }
  }

  /** A code that fits its width is read back from the front of its stream. */
  lemma ReadCodesFront(c: nat, rest: seq<bool>, i: nat)
    requires c < Pow2(CodeWidth(i))
    ensures ReadCodes(BitsOf(c, CodeWidth(i)) + rest, i) == [c] + ReadCodes(rest, i + 1)
  {
    var w := CodeWidth(i);
    var bits := BitsOf(c, w) + rest;
    assert bits[..w] == BitsOf(c, w);
    assert bits[w..] == rest;
    ValueOfBits(c, w);
    ReadCodesStep(bits, i);
  }

  /** Each code of a valid encoding is below the dictionary size at its index, so it fits its width. */
  lemma {:induction false} ValidCodesFit(codes: seq<nat>, ps: seq<seq<Byte>>, k: nat)
    requires ValidEncoding(codes, ps) && k <= |codes|
    ensures FitWidths(codes[k..], k)
    decreases |codes| - k
  {
    if k < |codes| {
      assert Names(codes[k], ps[..k + 1]);
      CodeWidthBounds(k);
      ValidCodesFit(codes, ps, k + 1);
      assert codes[k..][1..] == codes[k + 1..];
    }
  }

  /** The packed stream of data is split back into exactly the codes the encoder emitted. */
  lemma ReadEncoded(data: seq<Byte>) returns (ps: seq<seq<Byte>>)
    ensures ReadCodes(BytesToBits(Encode(data)), 0) == EncodeCodes(data)
    ensures ValidEncoding(EncodeCodes(data), ps) && Concat(ps) == data
  {
    var codes := EncodeCodes(data);
    EncodeCodesValid(data);
    ps :| ValidEncoding(codes, ps) && Concat(ps) == data;
    var bits := CodeBits(codes, 0);
    UnpackPack(bits);
    ValidCodesFit(codes, ps, 0);
    assert codes[0..] == codes;
    ReadCodesBack(codes, 0, Zeros(PadLength(|bits|)));
  }

  /** Uncompressing the packed stream of data decodes the codes the encoder emitted. */
  lemma UncompressedEncoded(data: seq<Byte>, ratio: nat)
    ensures Uncompressed(Encode(data), ratio) == DecodeCodes(EncodeCodes(data), OutputLimit(|Encode(data)|, ratio))
  {
    var _ := ReadEncoded(data);
  }

  /**
   * Round trip: uncompressing the packed stream of data gives data back when
   * |data| <= |packed| * ratio, and fails with RatioExceeded otherwise.
   */
  lemma RoundTrip(data: seq<Byte>, ratio: nat)
    ensures Uncompressed(Encode(data), ratio)
            == if |data| <= OutputLimit(|Encode(data)|, ratio) then Ok(data) else Err(RatioExceeded)
  {
    EncodeCodesValid(data);
    var ps :| ValidEncoding(EncodeCodes(data), ps) && Concat(ps) == data;
    UncompressedEncoded(data, ratio);
    DecodeValidLimit(EncodeCodes(data), ps, OutputLimit(|Encode(data)|, ratio));
  }

  /** Any limit decodes a valid encoding to its phrases when they fit and to RatioExceeded otherwise. */
  lemma DecodeValidLimit(codes: seq<nat>, ps: seq<seq<Byte>>, limit: nat)
    requires ValidEncoding(codes, ps)
    ensures DecodeCodes(codes, limit) == if |Concat(ps)| <= limit then Ok(Concat(ps)) else Err(RatioExceeded)
  {
    DecodeCodesValid(codes, ps, |Concat(ps)|);
    DecodeCodesLimit(codes, |Concat(ps)|, limit);
  }

  /**
   * What a caller of `compress` relies on: a non-null result is no longer than the input,
   * and uncompressing it with a ratio the data admits gives the input back.
   */
  lemma CompressedRoundTrip(data: seq<Byte>, ratio: nat)
    requires Compressed(data).Some?
    ensures |Compressed(data).value| <= |data|
    ensures |data| <= OutputLimit(|Compressed(data).value|, ratio) ==> Uncompressed(Compressed(data).value, ratio) == Ok(data)
  {
    RoundTrip(data, ratio);
  }

  /**
   * `uncompress` with one ratio decides every other ratio: a stream that decodes to o
   * decodes to o under any ratio with |o| <= |input| * ratio and fails with RatioExceeded
   * under any other.
   */
  lemma UncompressedRatio(input: seq<Byte>, ratio: nat, ratio': nat)
    requires Uncompressed(input, ratio).Ok?
    ensures var o := Uncompressed(input, ratio).value;
            Uncompressed(input, ratio') == if |o| <= OutputLimit(|input|, ratio') then Ok(o) else Err(RatioExceeded)
  {
    DecodeCodesLimit(ReadCodes(BytesToBits(input), 0), OutputLimit(|input|, ratio), OutputLimit(|input|, ratio'));
  }

  /** One byte is written as itself in 8 bits. */
  lemma EncodeOneByte(b: Byte)
    ensures EncodeCodes([b]) == [b]
    ensures Encode([b]) == [b]
  {
    assert EncodeCodes([b]) == [LiteralDict()[[b]]];
    CodeWidthFirst();
    assert CodeBits([b], 0) == BitsOf(b, 8) + CodeBits([], 1);
    assert Pow2(8) == 256;
    ValueOfBits(b, 8);
    assert BitsOf(b, 8)[8..] == [];
  }

  /** A single byte passes through `compress` and `uncompress` unchanged. */
  lemma SingleBytePassThrough(b: Byte, ratio: nat)
    requires ratio >= 1
    ensures Compressed([b]) == Some([b])
    ensures Uncompressed([b], ratio) == Ok([b])
  {
    EncodeOneByte(b);
    UncompressOneByte(b, ratio);
  }

  /** The packed form of one byte is that byte, so it decodes back under any ratio of at least 1. */
  lemma UncompressOneByte(b: Byte, ratio: nat)
    requires ratio >= 1
    ensures Uncompressed([b], ratio) == Ok([b])
  {
    var data := [b];
    EncodeOneByte(b);
    RoundTrip(data, ratio);
    assert OutputLimit(|Encode(data)|, ratio) == ratio;
  }

  /** Two or more bytes need at least two codes, hence at least two packed bytes. */
  lemma EncodeAtLeastTwo(data: seq<Byte>)
    requires |data| >= 2
    ensures |Encode(data)| >= 2
  {
    var ps := ReadEncoded(data);
    var codes := EncodeCodes(data);
    assert |ps| >= 1;
    assert Names(codes[0], ps[..1]);
    assert Entries(ps[..1]) == Literals();
    assert |ps[0]| == 1;
    assert |ps| >= 2;
    CodeBitsLength(codes, 0);
  }
}
