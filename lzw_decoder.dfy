/**
 * The reference definition of `LzwCompression.uncompress`: split the packed bytes into
 * codes at the widths the encoder used, rebuild the dictionary one entry behind the
 * encoder, and fail when a code is not defined yet or when the output outgrows the
 * input length times the maximum deflate ratio.
 */
module LzwDecoder {
  import opened Bits
  import opened Results
  import opened LzwDictionary

  /** Why uncompress fails: the source throws an `MslIoException` in both cases. */
  datatype DecodeError =
    | UndefinedCode   // a code beyond the next one to be assigned
    | RatioExceeded   // output longer than input length times the maximum deflate ratio

  /**
   * Splits a bit stream into codes, the code with stream index i taking CodeWidth(i) bits.
   * Reading stops when fewer bits remain than the next code's width, which is how the
   * zero padding of the last byte is skipped.
   */
  function ReadCodes(bits: seq<bool>, i: nat): seq<nat>
    decreases |bits|
  {
    var w := CodeWidth(i);
    if |bits| < w then []
    else
      assert w > 0 by { CodeWidthBounds(i); }
      [BitsValue(bits[..w])] + ReadCodes(bits[w..], i + 1)
  }

  /**
   * The decoder's loop from code k on: `table` maps codes to sequences, `prev` is the
   * sequence of code k - 1 and `out` what has been written.  A code equal to the next one
   * to be assigned (the decoder is one entry behind) stands for prev followed by its own
   * first byte.  After each code, prev followed by the first byte of the new sequence
   * becomes the next entry, and the output length is checked against the limit.
   */
  function DecodeFrom(codes: seq<nat>, k: nat, table: seq<seq<Byte>>, prev: seq<Byte>,
                      out: seq<Byte>, limit: nat): (r: Result<seq<Byte>, DecodeError>)
    requires 1 <= k <= |codes| && |prev| > 0 && NonEmpty(table)
    ensures r.Ok? ==> |out| <= |r.value| && r.value[..|out|] == out
    ensures r.Ok? && |out| <= limit ==> |r.value| <= limit
    decreases |codes| - k
  {
    if k == |codes| then Ok(out)
    else
      var c := codes[k];
      if c > |table| || (c == |table| && |table| >= MaxCodes) then Err(UndefinedCode)
      else
        var entry := EntryOf(c, table, prev);
        var out' := out + entry;
        if |out'| > limit then Err(RatioExceeded)
        else
          var r := DecodeFrom(codes, k + 1, Grow(table, prev + [entry[0]]), entry, out', limit);
          assert r.Ok? ==> r.value[..|out|] == r.value[..|out'|][..|out|];
          r
  }

  /** Decodes a list of codes; the first must be a literal. */
  function DecodeCodes(codes: seq<nat>, limit: nat): (r: Result<seq<Byte>, DecodeError>)
    ensures r.Ok? ==> |r.value| <= limit
  {
    if codes == [] then Ok([])
    else if codes[0] >= LiteralCount then Err(UndefinedCode)
    else if 1 > limit then Err(RatioExceeded)
    else DecodeFrom(codes, 1, Literals(), [codes[0] as Byte], [codes[0] as Byte], limit)
  }

  /** The most bytes `uncompress` may write: the input length times the maximum deflate ratio. */
  function OutputLimit(inputLength: nat, maxDeflateRatio: nat): nat
  {
    inputLength * maxDeflateRatio
  }

  /** `uncompress(codes, maxDeflateRatio)`: the output may be at most |input| * maxDeflateRatio bytes long. */
  function Uncompressed(input: seq<Byte>, maxDeflateRatio: nat): (r: Result<seq<Byte>, DecodeError>)
    ensures r.Ok? ==> |r.value| <= OutputLimit(|input|, maxDeflateRatio)
  {
    DecodeCodes(ReadCodes(BytesToBits(input), 0), OutputLimit(|input|, maxDeflateRatio))
  }

  // ---------------------------------------------------------------------------
  // The decoder inverts any valid encoding

  /**
   * Started one entry behind the encoder's table after k phrases, with the first k phrases
   * written, the decoder writes exactly the phrases the codes name.
   */
  lemma {:induction false} DecodeFromValid(codes: seq<nat>, ps: seq<seq<Byte>>, k: nat, limit: nat)
    requires ValidEncoding(codes, ps) && 1 <= k <= |codes| && |Concat(ps)| <= limit
    ensures NonEmpty(ps[..k])
    ensures DecodeFrom(codes, k, Entries(ps[..k]), ps[k - 1], Concat(ps[..k]), limit) == Ok(Concat(ps))
    decreases |codes| - k
  {
    assert NonEmpty(ps[..k]);
    if k == |codes| {
      assert ps[..k] == ps;
    } else {
      var table := Entries(ps[..k]);
      DecodeStepValid(codes, ps, k);
      ConcatStep(ps, k);
      ConcatPrefixLength(ps, k + 1);
      DecodeFromNext(codes, k, k + 1, table, ps[k - 1], Concat(ps[..k]), limit);
      DecodeFromValid(codes, ps, k + 1, limit);
    }
  }

  /** The entry code c stands for, given the table and the previous entry: the one-behind case reads prev + prev[0]. */
  function EntryOf(c: nat, table: seq<seq<Byte>>, prev: seq<Byte>): (e: seq<Byte>)
    requires c <= |table| && |prev| > 0 && NonEmpty(table)
    ensures |e| > 0
    ensures c < |table| ==> e == table[c]
    ensures c == |table| ==> e == prev + [prev[0]]
  {
    if c < |table| then table[c] else prev + [prev[0]]
  }

  /** A code beyond the next one to be assigned, or equal to it once the table is full, is undefined. */
  lemma DecodeFromUndefined(codes: seq<nat>, k: nat, table: seq<seq<Byte>>, prev: seq<Byte>,
                            out: seq<Byte>, limit: nat)
    requires 1 <= k < |codes| && |prev| > 0 && NonEmpty(table)
    requires codes[k] > |table| || (codes[k] == |table| && |table| >= MaxCodes)
    ensures DecodeFrom(codes, k, table, prev, out, limit) == Err(UndefinedCode)
  {
  }

  /** A defined code whose entry takes the output past the limit fails with RatioExceeded. */
  lemma DecodeFromOver(codes: seq<nat>, k: nat, table: seq<seq<Byte>>, prev: seq<Byte>,
                       out: seq<Byte>, limit: nat)
    requires 1 <= k < |codes| && |prev| > 0 && NonEmpty(table)
    requires codes[k] < |table| || (codes[k] == |table| && |table| < MaxCodes)
    requires |out + EntryOf(codes[k], table, prev)| > limit
    ensures DecodeFrom(codes, k, table, prev, out, limit) == Err(RatioExceeded)
  {
  }

  /**
   * A defined code whose entry fits appends the entry, grows the table by prev and the
   * entry's first byte, and goes on with code k' = k + 1.
   */
  lemma DecodeFromNext(codes: seq<nat>, k: nat, k': nat, table: seq<seq<Byte>>, prev: seq<Byte>,
                       out: seq<Byte>, limit: nat)
    requires 1 <= k < |codes| && k' == k + 1 && |prev| > 0 && NonEmpty(table) && |table| == DictSize(k - 1)
    requires codes[k] < |table| || (codes[k] == |table| && |table| < MaxCodes)
    requires |out + EntryOf(codes[k], table, prev)| <= limit
    ensures var entry := EntryOf(codes[k], table, prev);
            && DecodeFrom(codes, k, table, prev, out, limit)
               == DecodeFrom(codes, k', Grow(table, prev + [entry[0]]), entry, out + entry, limit)
            && NonEmpty(Grow(table, prev + [entry[0]]))
            && |Grow(table, prev + [entry[0]])| == DictSize(k' - 1)
  {
  }

  /** Code k of a valid encoding is defined in the decoder's table and stands for phrase k. */
  lemma DecodeStepValid(codes: seq<nat>, ps: seq<seq<Byte>>, k: nat)
    requires ValidEncoding(codes, ps) && 1 <= k < |codes|
    ensures NonEmpty(ps[..k]) && NonEmpty(ps[..k + 1])
    ensures var table, prev, c := Entries(ps[..k]), ps[k - 1], codes[k];
            && !(c > |table| || (c == |table| && |table| >= MaxCodes))
            && c <= |table| && EntryOf(c, table, prev) == ps[k]
            && Grow(table, prev + [ps[k][0]]) == Entries(ps[..k + 1])
  {
    var table := Entries(ps[..k]);
    var prev := ps[k - 1];
    var c := codes[k];
    assert NonEmpty(ps[..k]) && NonEmpty(ps[..k + 1]);
    assert Names(c, ps[..k + 1]);
    assert ps[..k + 1][k] == ps[k];
    EntriesStep(ps, k);
    var grown := Entries(ps[..k + 1]);
    assert grown[c] == ps[k];
    if c < |table| {
      assert grown[..|table|] == table;
    } else {
      assert c == |table| && |table| < MaxCodes;
      assert ps[k] == prev + [ps[k][0]];
    }
  }

  /** The bytes of the first k + 1 phrases are those of the first k, then phrase k. */
  lemma ConcatStep(ps: seq<seq<Byte>>, k: nat)
    requires k < |ps|
    ensures Concat(ps[..k + 1]) == Concat(ps[..k]) + ps[k]
  {
    assert ps[..k + 1][..k] == ps[..k];
  }

  /** Decoding a valid encoding whose phrases fit the limit gives back the bytes they spell. */
  lemma DecodeCodesValid(codes: seq<nat>, ps: seq<seq<Byte>>, limit: nat)
    requires ValidEncoding(codes, ps) && |Concat(ps)| <= limit
    ensures DecodeCodes(codes, limit) == Ok(Concat(ps))
  {
    if codes != [] {
      assert Names(codes[0], ps[..1]);
      assert Entries(ps[..1]) == Literals();
      assert ps[0] == [codes[0] as Byte];
      assert Concat(ps[..1]) == ps[0] by {
        assert ps[..1][..0] == [];
      }
      ConcatPrefixLength(ps, 1);
      DecodeFromValid(codes, ps, 1, limit);
    }
  }

  // ---------------------------------------------------------------------------
  // The ratio guard

  /**
   * The limit decides nothing but whether a decoding that succeeds under some limit fits:
   * under any other limit the same stream gives the same output when it fits and
   * RatioExceeded when it does not.
   */
  lemma {:induction false} DecodeFromLimit(codes: seq<nat>, k: nat, table: seq<seq<Byte>>, prev: seq<Byte>,
                                           out: seq<Byte>, limit: nat, limit': nat)
    requires 1 <= k <= |codes| && |prev| > 0 && NonEmpty(table) && |out| <= limit'
    requires DecodeFrom(codes, k, table, prev, out, limit).Ok?
    ensures var o := DecodeFrom(codes, k, table, prev, out, limit).value;
            DecodeFrom(codes, k, table, prev, out, limit') == if |o| <= limit' then Ok(o) else Err(RatioExceeded)
    decreases |codes| - k
  {
    if k < |codes| {
      var c := codes[k];
      var entry := EntryOf(c, table, prev);
      var out' := out + entry;
      if |out'| <= limit' {
        DecodeFromLimit(codes, k + 1, Grow(table, prev + [entry[0]]), entry, out', limit, limit');
      }
    }
  }

  lemma DecodeCodesLimit(codes: seq<nat>, limit: nat, limit': nat)
    requires DecodeCodes(codes, limit).Ok?
    ensures var o := DecodeCodes(codes, limit).value;
            DecodeCodes(codes, limit') == if |o| <= limit' then Ok(o) else Err(RatioExceeded)
  {
    if codes != [] && 1 <= limit' {
      var first := [codes[0] as Byte];
      DecodeFromLimit(codes, 1, Literals(), first, first, limit, limit');
    }
  }
}
