/**
 * `LzwCompression.compress` and `LzwCompression.uncompress` as the loops they are: the
 * encoder scans the input once, growing a sequence-to-code map and writing each code
 * MSB-first into a bit writer; the decoder reads codes bit by bit, grows a
 * code-to-sequence table one entry behind the encoder and appends to its output while
 * watching the deflate ratio.  Each method is proved equal to the reference definition
 * in LzwEncoder or LzwDecoder, whose properties LzwProperties proves.
 */
module LzwCodec {
  import opened Bits
  import opened Results
  import opened LzwDictionary
  import opened LzwEncoder
  import opened LzwDecoder

  /**
   * An output stream of bits: whole bytes go to `bytes`, and the last `pendingBits`
   * bits written (fewer than eight) wait in `pending`, most significant first.
   */
  class BitWriter {
    var bytes: seq<Byte>
    var pending: nat
    var pendingBits: nat

    ghost predicate Valid()
      reads this
    {
      pendingBits < 8 && pending < Pow2(pendingBits)
    }

    /** Every bit written so far, in order. */
    ghost function Written(): seq<bool>
      reads this
    {
      BytesToBits(bytes) + BitsOf(pending, pendingBits)
    }

    constructor ()
      ensures Valid() && Written() == []
    {
      bytes := [];
      pending := 0;
      pendingBits := 0;
    }

    /** Appends one bit; a completed byte moves to `bytes`. */
    method WriteBit(b: bool)
      requires Valid()
      modifies this
      ensures Valid() && Written() == old(Written()) + [b]
    {
      var v := 2 * pending + (if b then 1 else 0);
      ShiftIn(pending, pendingBits, b);
      if pendingBits == 7 {
        CompleteByte(bytes, v);
        bytes := bytes + [v];
        pending := 0;
        pendingBits := 0;
      } else {
        pending := v;
        pendingBits := pendingBits + 1;
      }
    }

    /** Appends the `width` low-order bits of `code`, most significant first. */
    method WriteCode(code: nat, width: nat)
      requires Valid()
      modifies this
      ensures Valid() && Written() == old(Written()) + BitsOf(code, width)
    {
      var s: nat := width;
      while s > 0
        invariant s <= width
        invariant Valid() && Written() == old(Written()) + BitsOf(code, width)[..width - s]
      {
        BitsOfAt(code, width, width - s);
        assert BitsOf(code, width)[..width - s + 1] == BitsOf(code, width)[..width - s] + [Bit(code, s - 1)];
        WriteBit(Bit(code, s - 1));
        s := s - 1;
      }
      assert BitsOf(code, width)[..width] == BitsOf(code, width);
    }

    /** Pads the pending bits with zero bits to a whole byte; the bytes are then the packed stream. */
    method Flush() returns (packed: seq<Byte>)
      requires Valid()
      modifies this
      ensures packed == Pack(old(Written()))
      ensures Valid() && pendingBits == 0 && bytes == packed
      ensures Written() == old(Written()) + Zeros(PadLength(|old(Written())|))
    {
      ghost var bits := Written();
      ghost var whole := |bytes| + (if pendingBits == 0 then 0 else 1);
      PadLengthOf(|bytes|, pendingBits);
      var pad := if pendingBits == 0 then 0 else 8 - pendingBits;
      WriteCode(0, pad);
      ZeroBits(pad);
      PaddedToBytes(bytes, pending, pendingBits, bits, whole);
      packed := bytes;
    }
  }

  /** A count of bits that is a multiple of eight leaves no partial byte. */
  lemma WholeBytes(m: nat, p: nat, whole: nat)
    requires p < 8 && 8 * m + p == 8 * whole
    ensures p == 0
  {
  }

  /** A writer holding a padded stream of whole bytes holds exactly the packed stream. */
  lemma PaddedToBytes(bytes: seq<Byte>, pending: nat, pendingBits: nat, bits: seq<bool>, whole: nat)
    requires pendingBits < 8 && pending < Pow2(pendingBits)
    requires BytesToBits(bytes) + BitsOf(pending, pendingBits) == bits + Zeros(PadLength(|bits|))
    requires |bits| + PadLength(|bits|) == 8 * whole
    ensures bytes == Pack(bits)
  {
    assert 8 * |bytes| + pendingBits == 8 * whole by {
      assert |BytesToBits(bytes) + BitsOf(pending, pendingBits)| == |bits + Zeros(PadLength(|bits|))|;
    }
    WholeBytes(|bytes|, pendingBits, whole);
    UnpackPack(bits);
    assert BytesToBits(bytes) == BytesToBits(Pack(bits));
    BytesToBitsInjective(bytes, Pack(bits));
  }

  /** Shifting bit b in below the k bits of p gives the k + 1 bits of the result. */
  lemma ShiftIn(p: nat, k: nat, b: bool)
    requires p < Pow2(k)
    ensures 2 * p + (if b then 1 else 0) < Pow2(k + 1)
    ensures BitsOf(2 * p + (if b then 1 else 0), k + 1) == BitsOf(p, k) + [b]
  {
  }

  /** A completed byte adds its eight bits to the written stream. */
  lemma CompleteByte(bytes: seq<Byte>, v: Byte)
    ensures BytesToBits(bytes + [v]) + BitsOf(0, 0) == BytesToBits(bytes) + BitsOf(v, 8)
  {
    BytesToBitsAppend(bytes, [v]);
    assert BytesToBits([v]) == BitsOf(v, 8) + BytesToBits([]);
  }

  /**
   * `compress(data)`: the greedy scan writes the code of the longest known match each
   * time the match cannot be extended, at the width of the largest code assigned so far,
   * and gives null (None) when the packed stream is longer than the input.
   */
  method Compress(data: seq<Byte>) returns (r: Option<seq<Byte>>)
    ensures r == Compressed(data)
  {
    var writer := new BitWriter();
    if |data| > 0 {
      WriteCodes(data, writer);
    }
    var packed := writer.Flush();
    if |packed| > |data| {
      r := None;
    } else {
      r := Some(packed);
    }
  }

  /** The scan itself: writes the codes of non-empty data to an empty writer. */
  method WriteCodes(data: seq<Byte>, writer: BitWriter)
    requires |data| > 0 && writer.Valid() && writer.Written() == []
    modifies writer
    ensures writer.Valid() && writer.Written() == CodeBits(EncodeCodes(data), 0)
  {
    var dict: map<seq<Byte>, nat> := LiteralDict();
    var next: nat := LiteralCount;
    var current := [data[0]];
    ghost var codes: seq<nat> := [];
    var i := 1;
    ghost var goal := EncodeCodes(data);
    assert ScansTo(data, i, dict, next, current, codes, goal);
    while i < |data|
      invariant 1 <= i <= |data|
      invariant ScansTo(data, i, dict, next, current, codes, goal)
      invariant next == DictSize(|codes|)
      invariant writer.Valid() && writer.Written() == CodeBits(codes, 0)
    {
      dict, next, current, codes := ScanByte(data, i, writer, dict, next, current, codes, goal);
      i := i + 1;
    }
    ScanEnds(data, dict, next, current, codes, goal);
    EmitCode(writer, dict[current], next, codes);
  }

  /**
   * One byte of the scan: a match that can be extended by data[i] is extended; otherwise its
   * code is written, its extension gets the next free code unless the dictionary is full,
   * and matching restarts from data[i].
   */
  method ScanByte(data: seq<Byte>, i: nat, writer: BitWriter, dict: map<seq<Byte>, nat>, next: nat,
                  current: seq<Byte>, ghost codes: seq<nat>, ghost goal: seq<nat>)
    returns (dict': map<seq<Byte>, nat>, next': nat, current': seq<Byte>, ghost codes': seq<nat>)
    requires i < |data| && ScansTo(data, i, dict, next, current, codes, goal) && next == DictSize(|codes|)
    requires writer.Valid() && writer.Written() == CodeBits(codes, 0)
    modifies writer
    ensures ScansTo(data, i + 1, dict', next', current', codes', goal) && next' == DictSize(|codes'|)
    ensures writer.Valid() && writer.Written() == CodeBits(codes', 0)
  {
    var b := data[i];
    var extended := current + [b];
    if extended in dict {
      ScanExtends(data, i, b, dict, next, current, codes, goal);
      dict', next', current', codes' := dict, next, extended, codes;
    } else {
      var code := dict[current];
      EmitCode(writer, code, next, codes);
      if next < MaxCodes {
        ScanEmitsAndGrows(data, i, b, dict, next, current, codes, goal);
        dict', next' := dict[extended := next], next + 1;
      } else {
        ScanEmitsFull(data, i, b, dict, next, current, codes, goal);
        dict', next' := dict, next;
      }
      current', codes' := [b], codes + [code];
    }
  }

  /** Writes one code at the width of the largest code assigned so far. */
  method EmitCode(writer: BitWriter, code: nat, next: nat, ghost codes: seq<nat>)
    requires writer.Valid() && writer.Written() == CodeBits(codes, 0) && next == DictSize(|codes|)
    modifies writer
    ensures writer.Valid() && writer.Written() == CodeBits(codes + [code], 0)
  {
    ghost var before := writer.Written();
    writer.WriteCode(code, BitLength(next - 1));
    WrittenCode(writer.Written(), before, codes, code, next);
  }

  /** Writing a code at the width of the largest code assigned so far extends the code stream. */
  lemma WrittenCode(written: seq<bool>, before: seq<bool>, codes: seq<nat>, code: nat, next: nat)
    requires before == CodeBits(codes, 0) && next == DictSize(|codes|)
    requires written == before + BitsOf(code, BitLength(next - 1))
    ensures written == CodeBits(codes + [code], 0)
  {
    CodeBitsAppend(codes, code, 0);
  }

  /** The scan, continued from this state, emits `goal`. */
  ghost predicate ScansTo(data: seq<Byte>, i: nat, dict: map<seq<Byte>, nat>, next: nat,
                          current: seq<Byte>, codes: seq<nat>, goal: seq<nat>)
  {
    i <= |data| && Ready(dict, current) && EncodeFrom(data, i, dict, next, current, codes) == goal
  }

  /** A match that can be extended is extended. */
  lemma ScanExtends(data: seq<Byte>, i: nat, b: Byte, dict: map<seq<Byte>, nat>, next: nat,
                    current: seq<Byte>, codes: seq<nat>, goal: seq<nat>)
    requires i < |data| && b == data[i] && ScansTo(data, i, dict, next, current, codes, goal) && current + [b] in dict
    ensures ScansTo(data, i + 1, dict, next, current + [b], codes, goal)
  {
  }

  /** A match that cannot be extended is emitted, and its extension gets the next free code. */
  lemma ScanEmitsAndGrows(data: seq<Byte>, i: nat, b: Byte, dict: map<seq<Byte>, nat>, next: nat,
                          current: seq<Byte>, codes: seq<nat>, goal: seq<nat>)
    requires i < |data| && b == data[i] && ScansTo(data, i, dict, next, current, codes, goal)
    requires current + [b] !in dict && next < MaxCodes
    ensures ScansTo(data, i + 1, dict[current + [b] := next], next + 1, [b], codes + [dict[current]], goal)
  {
  }

  /** With the dictionary full, a match that cannot be extended is emitted and nothing is added. */
  lemma ScanEmitsFull(data: seq<Byte>, i: nat, b: Byte, dict: map<seq<Byte>, nat>, next: nat,
                      current: seq<Byte>, codes: seq<nat>, goal: seq<nat>)
    requires i < |data| && b == data[i] && ScansTo(data, i, dict, next, current, codes, goal)
    requires current + [b] !in dict && next >= MaxCodes
    ensures ScansTo(data, i + 1, dict, next, [b], codes + [dict[current]], goal)
  {
  }

  /** At the end of the input, the scan emits the code of the last match. */
  lemma ScanEnds(data: seq<Byte>, dict: map<seq<Byte>, nat>, next: nat,
                 current: seq<Byte>, codes: seq<nat>, goal: seq<nat>)
    requires ScansTo(data, |data|, dict, next, current, codes, goal)
    ensures current in dict && goal == codes + [dict[current]]
  {
  }

  /** Reads `width` bits of `input` from bit position `pos` on, most significant first. */
  method ReadCode(input: seq<Byte>, pos: nat, width: nat) returns (code: nat)
    requires pos + width <= 8 * |input|
    ensures code == BitsValue(BytesToBits(input)[pos..pos + width])
  {
    code := 0;
    var j := 0;
    while j < width
      invariant j <= width
      invariant code == BitsValue(BytesToBits(input)[pos..pos + j])
    {
      BitsValueSlice(BytesToBits(input), pos, pos + j);
      code := 2 * code + (if BitAt(input, pos + j) then 1 else 0);
      j := j + 1;
    }
  }

  /** The codes from index k on are those read from bit position pos on. */
  ghost predicate ReadsRest(bits: seq<bool>, pos: nat, codes: seq<nat>, k: nat)
  {
    pos <= |bits| && k <= |codes| && codes[k..] == ReadCodes(bits[pos..], k)
  }

  /** Reads code k, which starts at bit position pos and is `width` bits wide. */
  method NextCode(input: seq<Byte>, pos: nat, width: nat, ghost codes: seq<nat>, ghost k: nat)
    returns (c: nat, pos': nat, ghost k': nat)
    requires ReadsRest(BytesToBits(input), pos, codes, k)
    requires width == CodeWidth(k) && pos + width <= 8 * |input|
    ensures k < |codes| && c == codes[k] && pos' == pos + width && k' == k + 1
    ensures ReadsRest(BytesToBits(input), pos', codes, k')
  {
    c := ReadCode(input, pos, width);
    ReadAtNext(BytesToBits(input), codes, k, pos, width);
    pos', k' := pos + width, k + 1;
  }

  /** The width the decoder reads code k at: the bit length of the next code to be assigned. */
  lemma DecoderWidth(k: nat, tableSize: nat)
    requires k >= 1 && tableSize == DictSize(k - 1)
    ensures CodeWidth(k) == if tableSize < MaxCodes then BitLength(tableSize) else MaxCodeWidth
  {
    if tableSize >= MaxCodes {
      assert Pow2(8) == 256;
      assert Pow2(12) == 4096;
      assert Pow2(16) == 65536;
      BitLengthIs(65535, 16);
    }
  }

  /** When fewer bits remain than the next code's width, every code has been read. */
  lemma ReadAtEnd(bits: seq<bool>, codes: seq<nat>, k: nat, pos: nat)
    requires pos <= |bits| && k <= |codes| && codes[k..] == ReadCodes(bits[pos..], k)
    requires |bits| - pos < CodeWidth(k)
    ensures k == |codes|
  {
  }

  /** The code read at bit position pos is the next code of the stream, and the rest follow it. */
  lemma ReadAtNext(bits: seq<bool>, codes: seq<nat>, k: nat, pos: nat, width: nat)
    requires pos <= |bits| && k <= |codes| && codes[k..] == ReadCodes(bits[pos..], k)
    requires width == CodeWidth(k) && pos + width <= |bits|
    ensures k < |codes|
    ensures codes[k] == BitsValue(bits[pos..pos + width])
    ensures codes[k + 1..] == ReadCodes(bits[pos + width..], k + 1)
  {
    CodeWidthBounds(k);
    assert bits[pos..][..width] == bits[pos..pos + width];
    assert bits[pos..][width..] == bits[pos + width..];
    assert codes[k..][1..] == codes[k + 1..];
  }

  /**
   * `uncompress(codes, maxDeflateRatio)`: reads the first code in 8 bits and each later
   * one at the width of the next code to be assigned, until fewer bits remain than that
   * width.  A code beyond the next one fails with UndefinedCode; output longer than the
   * input length times the ratio fails with RatioExceeded.
   */
  method Uncompress(input: seq<Byte>, maxDeflateRatio: nat) returns (r: Result<seq<Byte>, DecodeError>)
    ensures r == Uncompressed(input, maxDeflateRatio)
  {
    var limit := OutputLimit(|input|, maxDeflateRatio);
    ghost var codes := ReadCodes(BytesToBits(input), 0);
    CodeWidthFirst();
    if 8 * |input| < 8 {
      ReadAtEnd(BytesToBits(input), codes, 0, 0);
      return Ok([]);
    }
    assert Pow2(8) == 256;
    var first := ReadCode(input, 0, 8);
    if 1 > limit {
      return Err(RatioExceeded);
    }
    r := DecodeRest(input, first, limit);
  }

  /** The decoder's loop, from the second code on, with the first code already written. */
  method DecodeRest(input: seq<Byte>, first: Byte, limit: nat) returns (r: Result<seq<Byte>, DecodeError>)
    requires 8 <= 8 * |input| && first == BitsValue(BytesToBits(input)[..8])
    ensures r == DecodeFrom(ReadCodes(BytesToBits(input), 0), 1, Literals(), [first], [first], limit)
  {
    var total := 8 * |input|;
    ghost var bits := BytesToBits(input);
    ghost var codes := ReadCodes(bits, 0);
    CodeWidthFirst();
    ReadAtNext(bits, codes, 0, 0, 8);
    assert bits[0..8] == bits[..8];
    assert ReadsRest(bits, 8, codes, 1);
    var table := Literals();
    var prev: seq<Byte> := [first];
    var out: seq<Byte> := [first];
    var pos := 8;
    ghost var k := 1;
    ghost var goal := DecodeFrom(codes, k, table, prev, out, limit);
    while true
      invariant DecodesTo(input, pos, codes, k, table, prev, out, limit, goal)
      decreases total - pos
    {
      var done: bool;
      var pos': nat;
      done, r, pos', table, prev, out, k := DecodeStep(input, pos, codes, k, table, prev, out, limit, goal);
      if done {
        return;
      }
      pos := pos';
    }
  }

  /**
   * The decoder's state before code k, read from bit position pos: the codes from k on
   * are read from there, and decoding them from this table, previous entry and output
   * gives `goal`.
   */
  ghost predicate DecodesTo(input: seq<Byte>, pos: nat, codes: seq<nat>, k: nat, table: seq<seq<Byte>>,
                            prev: seq<Byte>, out: seq<Byte>, limit: nat, goal: Result<seq<Byte>, DecodeError>)
  {
    && 1 <= k <= |codes|
    && ReadsRest(BytesToBits(input), pos, codes, k)
    && |prev| > 0 && NonEmpty(table) && |table| == DictSize(k - 1)
    && DecodeFrom(codes, k, table, prev, out, limit) == goal
  }

  /**
   * One turn of the decoder's loop: stop with the output when fewer bits remain than the
   * width of the next code; otherwise read the code, fail on an undefined code or an output
   * over the limit, or append its sequence and grow the table.
   */
  method DecodeStep(input: seq<Byte>, pos: nat, ghost codes: seq<nat>, ghost k: nat, table: seq<seq<Byte>>,
                    prev: seq<Byte>, out: seq<Byte>, limit: nat, ghost goal: Result<seq<Byte>, DecodeError>)
    returns (done: bool, r: Result<seq<Byte>, DecodeError>, pos': nat, table': seq<seq<Byte>>,
             prev': seq<Byte>, out': seq<Byte>, ghost k': nat)
    requires DecodesTo(input, pos, codes, k, table, prev, out, limit, goal)
    ensures done ==> r == goal
    ensures !done ==> pos < pos' && DecodesTo(input, pos', codes, k', table', prev', out', limit, goal)
  {
    table', prev', out', pos', r := table, prev, out, pos, Ok(out);
    ghost var bits := BytesToBits(input);
    DecoderWidth(k, |table|);
    var width := if |table| < MaxCodes then BitLength(|table|) else MaxCodeWidth;
    if 8 * |input| - pos < width {
      ReadAtEnd(bits, codes, k, pos);
      return true, Ok(out), pos', table', prev', out', k;
    }
    var c, next;
    c, next, k' := NextCode(input, pos, width, codes, k);
    if c > |table| || (c == |table| && |table| >= MaxCodes) {
      DecodeFromUndefined(codes, k, table, prev, out, limit);
      return true, Err(UndefinedCode), pos', table', prev', out', k';
    }
    var entry := EntryOf(c, table, prev);
    out' := out + entry;
    if |out'| > limit {
      DecodeFromOver(codes, k, table, prev, out, limit);
      return true, Err(RatioExceeded), pos', table', prev', out', k';
    }
    DecodeFromNext(codes, k, k', table, prev, out, limit);
    CodeWidthBounds(k);
    table' := Grow(table, prev + [entry[0]]);
    prev' := entry;
    pos' := next;
    done := false;
  }
}
