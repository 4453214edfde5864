/**
 * Bytes, bit strings and the MSB-first packing the LZW codec writes and reads.
 * A bit string is a `seq<bool>`; a byte holds eight of them, most significant first,
 * and the last partial byte of a packed stream is padded with zero bits.
 */
module Bits {

  /** An unsigned octet, the element type of the codec's `Uint8Array`s. */
  type Byte = b: int | 0 <= b < 256

  function Pow2(k: nat): (r: nat)
    ensures r >= 1
  {
    if k == 0 then 1 else 2 * Pow2(k - 1)
  }

  /** The powers of two the bit layouts use. */
  lemma Pow2Small()
    ensures Pow2(4) == 16 && Pow2(6) == 64 && Pow2(7) == 128 && Pow2(8) == 256 && Pow2(9) == 512
  {
  }

  /** Number of binary digits of x; 0 has none. */
  function BitLength(x: nat): nat
  {
    if x == 0 then 0 else 1 + BitLength(x / 2)
  }

  /** BitLength(x) is the k with 2^(k-1) <= x < 2^k. */
  lemma {:induction false} BitLengthBounds(x: nat)
    requires x > 0
    ensures BitLength(x) >= 1
    ensures Pow2(BitLength(x) - 1) <= x < Pow2(BitLength(x))
  {
    if x > 1 {
      BitLengthBounds(x / 2);
    }
  }

  /** The converse: a number between 2^(k-1) and 2^k has k digits. */
  lemma {:induction false} BitLengthIs(x: nat, k: nat)
    requires k >= 1 && Pow2(k - 1) <= x < Pow2(k)
    ensures BitLength(x) == k
  {
    if k > 1 {
      BitLengthIs(x / 2, k - 1);
    }
  }

  lemma {:induction false} BitLengthMonotone(x: nat, y: nat)
    requires x <= y
    ensures BitLength(x) <= BitLength(y)
  {
    if x > 0 {
      BitLengthMonotone(x / 2, y / 2);
    }
  }

  /** The w low-order bits of v, most significant first. */
  function BitsOf(v: nat, w: nat): (r: seq<bool>)
    ensures |r| == w
  {
    if w == 0 then [] else BitsOf(v / 2, w - 1) + [v % 2 == 1]
  }

  /** The number whose binary digits, most significant first, are `bits`. */
  function BitsValue(bits: seq<bool>): (r: nat)
    ensures r < Pow2(|bits|)
  {
    if bits == [] then 0
    else 2 * BitsValue(bits[..|bits| - 1]) + (if bits[|bits| - 1] then 1 else 0)
  }

  /** Reading back the w bits of a value below 2^w gives the value. */
  lemma {:induction false} ValueOfBits(v: nat, w: nat)
    requires v < Pow2(w)
    ensures BitsValue(BitsOf(v, w)) == v
  {
    if w > 0 {
      ValueOfBits(v / 2, w - 1);
      var bits := BitsOf(v, w);
      assert bits[..w - 1] == BitsOf(v / 2, w - 1);
    }
  }

  /** Writing a bit string's value back at its own width gives the bit string. */
  lemma {:induction false} BitsOfValue(bits: seq<bool>)
    ensures BitsOf(BitsValue(bits), |bits|) == bits
  {
    if bits != [] {
      var n := |bits|;
      BitsOfValue(bits[..n - 1]);
      assert bits == bits[..n - 1] + [bits[n - 1]];
    }
  }

  /** Bit k of v, counted from the least significant end. */
  function Bit(v: nat, k: nat): bool
  {
    if k == 0 then v % 2 == 1 else Bit(v / 2, k - 1)
  }

  /** Position j of the w-bit form of v, counted from the top, is bit w - 1 - j of v. */
  lemma {:induction false} BitsOfAt(v: nat, w: nat, j: nat)
    requires j < w
    ensures BitsOf(v, w)[j] == Bit(v, w - 1 - j)
  {
    if j < w - 1 {
      BitsOfAt(v / 2, w - 1, j);
    }
  }

  /** The bits of a byte string, eight per byte, most significant first. */
  function BytesToBits(bytes: seq<Byte>): (r: seq<bool>)
    ensures |r| == 8 * |bytes|
  {
    if bytes == [] then [] else BitsOf(bytes[0], 8) + BytesToBits(bytes[1..])
  }

  /** Bit p of a byte string lies in byte p / 8, at offset p % 8 from its top. */
  lemma {:induction false} BytesToBitsAt(bytes: seq<Byte>, p: nat)
    requires p < 8 * |bytes|
    ensures BytesToBits(bytes)[p] == Bit(bytes[p / 8], 7 - p % 8)
  {
    if p < 8 {
      BitsOfAt(bytes[0], 8, p);
    } else {
      var q := p - 8;
      assert q / 8 == p / 8 - 1 && q % 8 == p % 8;
      assert BytesToBits(bytes) == BitsOf(bytes[0], 8) + BytesToBits(bytes[1..]);
      BytesToBitsAt(bytes[1..], q);
    }
  }

  /** Bit p of a byte string, read from its byte without unpacking the rest. */
  function BitAt(bytes: seq<Byte>, p: nat): (r: bool)
    requires p < 8 * |bytes|
    ensures r == BytesToBits(bytes)[p]
  {
    BytesToBitsAt(bytes, p);
    Bit(bytes[p / 8], 7 - p % 8)
  }

  /** One more bit at the end of a slice doubles its value and adds the bit. */
  lemma BitsValueSlice(bits: seq<bool>, a: nat, b: nat)
    requires a <= b < |bits|
    ensures BitsValue(bits[a..b + 1]) == 2 * BitsValue(bits[a..b]) + (if bits[b] then 1 else 0)
  {
    assert bits[a..b + 1][..b - a] == bits[a..b];
  }

  lemma {:induction false} BytesToBitsAppend(xs: seq<Byte>, ys: seq<Byte>)
    ensures BytesToBits(xs + ys) == BytesToBits(xs) + BytesToBits(ys)
  {
    if xs == [] {
      assert xs + ys == ys;
    } else {
      assert (xs + ys)[0] == xs[0];
      assert (xs + ys)[1..] == xs[1..] + ys;
      BytesToBitsAppend(xs[1..], ys);
    }
  }

  /** n zero bits. */
  function Zeros(n: nat): (r: seq<bool>)
    ensures |r| == n
  {
    seq(n, _ => false)
  }

  /** How many zero bits pad a stream of n bits to a whole number of bytes. */
  function PadLength(n: nat): (r: nat)
    ensures r < 8
  {
    if n == 0 then 0 else if n < 8 then 8 - n else PadLength(n - 8)
  }

  /** Groups bits into bytes MSB-first; the last partial byte is zero-padded. */
  function Pack(bits: seq<bool>): (r: seq<Byte>)
    ensures |bits| <= 8 * |r| < |bits| + 8
    decreases |bits|
  {
    if |bits| == 0 then []
    else if |bits| < 8 then
      assert Pow2(8) == 256;
      [BitsValue(bits + Zeros(8 - |bits|))]
    else
      assert Pow2(8) == 256;
      [BitsValue(bits[..8])] + Pack(bits[8..])
  }

  /** Unpacking a packed stream gives the stream followed by its zero padding. */
  lemma {:induction false} UnpackPack(bits: seq<bool>)
    ensures BytesToBits(Pack(bits)) == bits + Zeros(PadLength(|bits|))
    decreases |bits|
  {
    var n := |bits|;
    if n == 0 {
      assert bits + Zeros(PadLength(n)) == [];
    } else if n < 8 {
      UnpackShort(bits);
    } else {
      var head := bits[..8];
      var rest := bits[8..];
      assert Pack(bits) == [BitsValue(head)] + Pack(rest);
      BytesToBitsCons(BitsValue(head), Pack(rest));
      BitsOfValue(head);
      UnpackPack(rest);
      AppendAssoc(head, rest, Zeros(PadLength(|rest|)));
      calc {
        BytesToBits(Pack(bits));
        BitsOf(BitsValue(head), 8) + BytesToBits(Pack(rest));
        head + (rest + Zeros(PadLength(|rest|)));
        { assert PadLength(n) == PadLength(|rest|); }
        (head + rest) + Zeros(PadLength(n));
        { assert bits == head + rest; }
        bits + Zeros(PadLength(n));
      }
    }
  }

  /** Fewer than eight bits unpack to themselves and their padding. */
  lemma UnpackShort(bits: seq<bool>)
    requires 0 < |bits| < 8
    ensures BytesToBits(Pack(bits)) == bits + Zeros(PadLength(|bits|))
  {
    var padded := bits + Zeros(8 - |bits|);
    assert |padded| == 8;
    Pow2Small();
    var x: Byte := BitsValue(padded);
    PackShort(bits);
    BytesToBitsCons(x, []);
    BitsOfValue(padded);
    assert BitsOf(BitsValue(padded), 8) + BytesToBits([]) == padded;
  }

  /** The bits of a byte followed by more bytes. */
  lemma BytesToBitsCons(x: Byte, rest: seq<Byte>)
    ensures BytesToBits([x] + rest) == BitsOf(x, 8) + BytesToBits(rest)
  {
    assert ([x] + rest)[1..] == rest;
  }

  /** Packing a stream that starts with eight bits: their value, then the packed rest. */
  lemma PackFirstByte(head: seq<bool>, rest: seq<bool>)
    requires |head| == 8
    ensures Pack(head + rest) == [BitsValue(head)] + Pack(rest)
  {
    var all := head + rest;
    assert all[..8] == head;
    assert all[8..] == rest;
  }

  /** Packing whole bytes followed by a tail gives back those bytes, then the packed tail. */
  lemma {:induction false} PackBytesThen(bytes: seq<Byte>, tail: seq<bool>)
    ensures Pack(BytesToBits(bytes) + tail) == bytes + Pack(tail)
  {
    if bytes == [] {
      assert BytesToBits(bytes) + tail == tail;
    } else {
      var x, rest := bytes[0], bytes[1..];
      assert bytes == [x] + rest;
      BytesToBitsCons(x, rest);
      AppendAssoc(BitsOf(x, 8), BytesToBits(rest), tail);
      PackByteThen(x, BytesToBits(rest) + tail);
      PackBytesThen(rest, tail);
      AppendAssoc([x], rest, Pack(tail));
    }
  }

  lemma AppendAssoc<T>(a: seq<T>, b: seq<T>, c: seq<T>)
    ensures (a + b) + c == a + (b + c)
  {
  }

  lemma ConsTail<T>(s: seq<T>)
    requires s != []
    ensures [s[0]] + s[1..] == s
  {
  }

  /** Packing the eight bits of a byte followed by more bits gives the byte, then the packed rest. */
  lemma PackByteThen(x: Byte, rest: seq<bool>)
    ensures Pack(BitsOf(x, 8) + rest) == [x] + Pack(rest)
  {
    PackFirstByte(BitsOf(x, 8), rest);
    assert Pow2(8) == 256;
    ValueOfBits(x, 8);
  }

  /** Fewer than eight bits are packed into one byte, padded with zero bits. */
  lemma PackShort(bits: seq<bool>)
    requires 0 < |bits| < 8
    ensures Pack(bits) == [BitsValue(bits + Zeros(8 - |bits|))]
  {
  }

  /** Packing undoes unpacking, so two byte strings with the same bits are equal. */
  lemma BytesToBitsInjective(xs: seq<Byte>, ys: seq<Byte>)
    requires BytesToBits(xs) == BytesToBits(ys)
    ensures xs == ys
  {
    PackBytesThen(xs, []);
    PackBytesThen(ys, []);
    assert BytesToBits(xs) + [] == BytesToBits(xs);
    assert BytesToBits(ys) + [] == BytesToBits(ys);
    assert Pack([]) == [];
    assert xs + [] == xs && ys + [] == ys;
  }

  /** n bits made of m whole bytes and p < 8 more need 8 - p bits of padding, or none when p = 0. */
  lemma {:induction false} PadLengthOf(m: nat, p: nat)
    requires p < 8
    ensures PadLength(8 * m + p) == if p == 0 then 0 else 8 - p
  {
    if m > 0 {
      PadLengthOf(m - 1, p);
      assert 8 * m + p - 8 == 8 * (m - 1) + p;
    }
  }

  /** Zero written in w bits is w zero bits. */
  lemma {:induction false} ZeroBits(w: nat)
    ensures BitsOf(0, w) == Zeros(w)
  {
    if w > 0 {
      ZeroBits(w - 1);
      assert Zeros(w - 1) + [false] == Zeros(w);
    }
  }

  /** The bits of a followed by the w2 bits of b are the w-bit form of v = a * 2^w2 + b, w = w1 + w2. */
  lemma {:induction false} BitsOfConcat(a: nat, w1: nat, b: nat, w2: nat, v: nat, w: nat)
    requires b < Pow2(w2) && v == a * Pow2(w2) + b && w == w1 + w2
    ensures BitsOf(a, w1) + BitsOf(b, w2) == BitsOf(v, w)
  {
    if w2 > 0 {
      var p := Pow2(w2 - 1);
      assert a * Pow2(w2) == 2 * (a * p);
      assert v / 2 == a * p + b / 2 && v % 2 == b % 2;
      BitsOfConcat(a, w1, b / 2, w2 - 1, v / 2, w - 1);
      AppendAssoc(BitsOf(a, w1), BitsOf(b / 2, w2 - 1), [b % 2 == 1]);
    }
  }

  /** The number the first n bytes spell, most significant first. */
  function BytesValue(bytes: seq<Byte>, n: nat): nat
    requires n <= |bytes|
  {
    if n == 0 then 0 else BytesValue(bytes, n - 1) * 256 + bytes[n - 1]
  }

  /** The bits of the first n bytes are the 8n-bit form of the number they spell. */
  lemma {:induction false} BytesToBitsValue(bytes: seq<Byte>, n: nat)
    requires n <= |bytes|
    ensures BytesToBits(bytes[..n]) == BitsOf(BytesValue(bytes, n), 8 * n)
  {
    if n > 0 {
      BytesToBitsValue(bytes, n - 1);
      assert bytes[..n] == bytes[..n - 1] + [bytes[n - 1]];
      BytesToBitsAppend(bytes[..n - 1], [bytes[n - 1]]);
      assert BytesToBits([bytes[n - 1]]) == BitsOf(bytes[n - 1], 8) + BytesToBits([]);
      assert Pow2(8) == 256;
      BitsOfConcat(BytesValue(bytes, n - 1), 8 * (n - 1), bytes[n - 1], 8, BytesValue(bytes, n), 8 * n);
    }
  }

  /**
   * A stream that is the w-bit form of v packs to the bytes spelling v followed by
   * the padding zeros.
   */
  lemma PackValue(bits: seq<bool>, v: nat, bytes: seq<Byte>)
    requires bits == BitsOf(v, |bits|)
    requires 8 * |bytes| == |bits| + PadLength(|bits|)
    requires BytesValue(bytes, |bytes|) == v * Pow2(PadLength(|bits|))
    ensures Pack(bits) == bytes
  {
    var n, u := |bytes|, BytesValue(bytes, |bytes|);
    PackedValue(bits, v);
    assert BytesToBits(Pack(bits)) == BitsOf(u, 8 * n);
    BytesToBitsValue(bytes, n);
    assert bytes[..n] == bytes;
    BytesToBitsInjective(Pack(bits), bytes);
  }

  /** Unpacking the packed w-bit form of v gives v shifted past the padding. */
  lemma PackedValue(bits: seq<bool>, v: nat)
    requires bits == BitsOf(v, |bits|)
    ensures BytesToBits(Pack(bits)) == BitsOf(v * Pow2(PadLength(|bits|)), |bits| + PadLength(|bits|))
  {
    UnpackPack(bits);
    BitsOfShift(v, |bits|, PadLength(|bits|));
  }

  /** Appending k zero bits to the w-bit form of v gives the (w + k)-bit form of v * 2^k. */
  lemma BitsOfShift(v: nat, w: nat, k: nat)
    ensures BitsOf(v, w) + Zeros(k) == BitsOf(v * Pow2(k), w + k)
  {
    ZeroBits(k);
    BitsOfConcat(v, w, 0, k, v * Pow2(k), w + k);
  }
}
