/**
 * The byte vectors of the `LzwCompression` tests, proved about the reference
 * definitions: the one-, two- and three-byte inputs, the run of 1024 zero bytes with
 * its exact 51-byte packed form and both deflate ratios, and the XML request that
 * must survive a compress/uncompress round trip.
 */
module LzwVectors {
  import opened Bits
  import opened Results
  import opened LzwDictionary
  import opened LzwEncoder
  import opened LzwDecoder
  import opened LzwProperties

  /** The maximum deflate ratio the tests pass to `uncompress`. */
  const MaxDeflateRatio: nat := 200

  // ---------------------------------------------------------------------------
  // Short inputs: all codes are literals

  /** Two literal codes are written in 8 and 9 bits: one 17-bit number. */
  lemma TwoCodeBits(a: Byte, b: Byte)
    ensures CodeBits([a, b], 0) == BitsOf(a * 512 + b, 17)
  {
    CodeWidthFirst();
    CodeWidthNine(1);
    assert Pow2(9) == 512;
    assert CodeBits([b], 1) == BitsOf(b, 9) + CodeBits([], 2);
    assert CodeBits([a, b], 0) == BitsOf(a, 8) + BitsOf(b, 9);
    BitsOfConcat(a, 8, b, 9, a * 512 + b, 17);
  }

  /** Three literal codes are written in 8, 9 and 9 bits: one 26-bit number. */
  lemma ThreeCodeBits(a: Byte, b: Byte, c: Byte, codes: seq<nat>, v: nat)
    requires codes == [a, b, c] && v == (a * 512 + b) * 512 + c
    ensures CodeBits(codes, 0) == BitsOf(v, 26)
  {
    var prefix: seq<nat>, u := [a, b], a * 512 + b;
    assert codes == prefix + [c];
    TwoCodeBits(a, b);
    NineBitCode(prefix, c, u, 17, v, 26);
  }

  /** 0x66 0x67 has no repeated pair, so it is written as its two literals. */
  lemma TwoBytesCodes()
    ensures EncodeCodes([0x66, 0x67]) == [0x66, 0x67]
  {
    var d := LiteralDict();
    assert [0x66, 0x67] !in d;
    var d' := d[[0x66, 0x67] := 256];
    assert d'[[0x67]] == 0x67;
    assert EncodeFrom([0x66, 0x67], 2, d', 257, [0x67], [0x66]) == [0x66, 0x67];
  }

  /**
   * `compress([0x66, 0x67])` is null: the packed form [0x66, 0x33, 0x80] is longer than
   * the input, and `uncompress` of that packed form gives the two bytes back.
   */
  lemma TwoBytes()
    ensures Encode([0x66, 0x67]) == [0x66, 0x33, 0x80]
    ensures Compressed([0x66, 0x67]) == None
    ensures Uncompressed([0x66, 0x33, 0x80], MaxDeflateRatio) == Ok([0x66, 0x67])
  {
    TwoBytesCodes();
    TwoCodeBits(0x66, 0x67);
    var bits := BitsOf(0x66 * 512 + 0x67, 17);
    assert PadLength(17) == 7 && Pow2(7) == 128;
    assert BytesValue([0x66, 0x33, 0x80], 3) == (0x66 * 512 + 0x67) * 128;
    PackValue(bits, 0x66 * 512 + 0x67, [0x66, 0x33, 0x80]);
    RoundTrip([0x66, 0x67], MaxDeflateRatio);
  }

  /** 0x61 0xd7 0xb1 has no repeated pair either: three literals. */
  lemma ThreeBytesCodes()
    ensures EncodeCodes([0x61, 0xd7, 0xb1]) == [0x61, 0xd7, 0xb1]
  {
    var data: seq<Byte> := [0x61, 0xd7, 0xb1];
    var d := LiteralDict();
    assert [0x61, 0xd7] !in d;
    var d' := d[[0x61, 0xd7] := 256];
    assert d'[[0x61]] == 0x61;
    ThreeBytesLast(data, d');
  }

  /** After 0x61 0xd7 got code 256, the scan from [0xd7] emits 0xd7 and then 0xb1. */
  lemma ThreeBytesLast(data: seq<Byte>, d': map<seq<Byte>, nat>)
    requires data == [0x61, 0xd7, 0xb1] && d' == LiteralDict()[[0x61, 0xd7] := 256]
    ensures Ready(d', [0xd7])
    ensures EncodeFrom(data, 2, d', 257, [0xd7], [0x61]) == [0x61, 0xd7, 0xb1]
  {
    assert [0xd7, 0xb1] !in d';
    var d'' := d'[[0xd7, 0xb1] := 257];
    assert d'[[0xd7]] == 0xd7 && d''[[0xb1]] == 0xb1;
    assert data[2] == 0xb1 && [0xd7] + [data[2]] == [0xd7, 0xb1];
    assert EncodeFrom(data, 3, d'', 258, [0xb1], [0x61, 0xd7]) == [0x61, 0xd7, 0xb1];
  }

  /** The three literals pack into [0x61, 0x6b, 0xac, 0x40]: 26 bits and 6 bits of padding. */
  lemma ThreeBytesPacked(data: seq<Byte>, packed: seq<Byte>)
    requires data == [0x61, 0xd7, 0xb1] && packed == [0x61, 0x6b, 0xac, 0x40]
    ensures Encode(data) == packed
  {
    var v := (0x61 * 512 + 0xd7) * 512 + 0xb1;
    ThreeBytesCodes();
    ThreeCodeBits(0x61, 0xd7, 0xb1, EncodeCodes(data), v);
    PadLengthOf(3, 2);
    Pow2Small();
    ThreeBytesValue(packed);
    PackValue(BitsOf(v, 26), v, packed);
  }

  lemma ThreeBytesValue(packed: seq<Byte>)
    requires packed == [0x61, 0x6b, 0xac, 0x40]
    ensures BytesValue(packed, |packed|) == ((0x61 * 512 + 0xd7) * 512 + 0xb1) * 64
  {
    assert BytesValue(packed, 1) == 0x61;
    assert BytesValue(packed, 2) == 0x616b;
    assert BytesValue(packed, 3) == 0x616bac;
  }

  /**
   * `compress([0x61, 0xd7, 0xb1])` is null: the packed form [0x61, 0x6b, 0xac, 0x40] is
   * four bytes, and `uncompress` of it gives the three bytes back.
   */
  lemma ThreeBytes()
    ensures Encode([0x61, 0xd7, 0xb1]) == [0x61, 0x6b, 0xac, 0x40]
    ensures Compressed([0x61, 0xd7, 0xb1]) == None
    ensures Uncompressed([0x61, 0x6b, 0xac, 0x40], MaxDeflateRatio) == Ok([0x61, 0xd7, 0xb1])
  {
    var data: seq<Byte> := [0x61, 0xd7, 0xb1];
    var packed: seq<Byte> := [0x61, 0x6b, 0xac, 0x40];
    ThreeBytesPacked(data, packed);
    RoundTrip(data, MaxDeflateRatio);
  }

  /** `compress([0x1f])` is [0x1f], and `uncompress([0xf1], 200)` is [0xf1]. */
  lemma OneByte()
    ensures Compressed([0x1f]) == Some([0x1f])
    ensures Uncompressed([0xf1], MaxDeflateRatio) == Ok([0xf1])
  {
    SingleBytePassThrough(0x1f, MaxDeflateRatio);
    SingleBytePassThrough(0xf1, MaxDeflateRatio);
  }

  // ---------------------------------------------------------------------------
  // Runs of zero bytes: each phrase is one zero longer than the one before

  /** n zero bytes, as `new Uint8Array(n)` creates them. */
  function ZeroBytes(n: nat): (r: seq<Byte>)
    ensures |r| == n && forall i :: 0 <= i < n ==> r[i] == 0
  {
    seq(n, _ => 0)
  }

  /** The code of the run of j zeros: the literal 0 for one zero, else the (j - 1)th new code. */
  function RunCode(j: nat): nat
  {
    if j <= 1 then 0 else 254 + j
  }

  /** The encoder's dictionary once the runs of 2..l zeros have codes. */
  function RunDict(l: nat): map<seq<Byte>, nat>
  {
    if l <= 1 then LiteralDict() else RunDict(l - 1)[ZeroBytes(l) := RunCode(l)]
  }

  /** 1 + 2 + ... + m. */
  function Triangle(m: nat): nat
  {
    if m == 0 then 0 else Triangle(m - 1) + m
  }

  /** The codes of the runs of 1, 2, ..., m zeros. */
  function RunCodes(m: nat): (r: seq<nat>)
    ensures |r| == m
  {
    if m == 0 then [] else RunCodes(m - 1) + [RunCode(m)]
  }

  lemma ZeroBytesStep(n: nat)
    ensures ZeroBytes(n) + [0] == ZeroBytes(n + 1)
  {
  }

  /** RunDict(l) has every literal and exactly the runs of 1..l zeros, each under its run code. */
  lemma {:induction false} RunDictHas(l: nat, j: nat)
    requires l >= 1
    ensures forall b: Byte :: [b] in RunDict(l) && RunDict(l)[[b]] == b
    ensures ZeroBytes(j) in RunDict(l) <==> 1 <= j <= l
    ensures 1 <= j <= l ==> RunDict(l)[ZeroBytes(j)] == RunCode(j)
  {
    if l > 1 {
      RunDictHas(l - 1, j);
      forall b: Byte ensures [b] in RunDict(l) && RunDict(l)[[b]] == b {
        RunDictHas(l - 1, j);
        assert [b] != ZeroBytes(l) by { assert |ZeroBytes(l)| != 1; }
      }
      if j != l {
        assert ZeroBytes(j) != ZeroBytes(l) by { assert |ZeroBytes(j)| != |ZeroBytes(l)|; }
      }
    } else {
      assert [0] == ZeroBytes(1);
    }
  }

  /**
   * While the run being matched has a code, the encoder extends it one zero at a time:
   * from the run of c zeros at byte i to the run of t zeros at byte j = i + (t - c).
   */
  lemma {:induction false} RunExtends(n: nat, i: nat, j: nat, l: nat, t: nat, next: nat, c: nat, codes: seq<nat>)
    requires 1 <= c <= t <= l && j == i + (t - c) && j <= n
    ensures Ready(RunDict(l), ZeroBytes(c)) && Ready(RunDict(l), ZeroBytes(t))
    ensures EncodeFrom(ZeroBytes(n), i, RunDict(l), next, ZeroBytes(c), codes)
            == EncodeFrom(ZeroBytes(n), j, RunDict(l), next, ZeroBytes(t), codes)
    decreases t - c
  {
    RunDictHas(l, c);
    RunDictHas(l, t);
    if c < t {
      RunDictHas(l, c + 1);
      ZeroBytesStep(c);
      RunExtends(n, i + 1, j, l, t, next, c + 1, codes);
    }
  }

  /**
   * Once the run of l zeros is matched and one more zero follows, its code is emitted, the
   * run of l + 1 zeros gets the next code and matching restarts from one zero.
   */
  lemma RunEmits(n: nat, i: nat, i': nat, l: nat, l': nat, next: nat, next': nat, codes: seq<nat>)
    requires 1 <= l && i < n && i' == i + 1 && l' == l + 1
    requires next == 255 + l && next' == next + 1 && next < MaxCodes
    ensures Ready(RunDict(l), ZeroBytes(l)) && Ready(RunDict(l'), ZeroBytes(1))
    ensures EncodeFrom(ZeroBytes(n), i, RunDict(l), next, ZeroBytes(l), codes)
            == EncodeFrom(ZeroBytes(n), i', RunDict(l'), next', ZeroBytes(1), codes + [RunCode(l)])
  {
    RunDictHas(l, l);
    RunDictHas(l, l + 1);
    RunDictHas(l + 1, 1);
    ZeroBytesStep(l);
    assert [ZeroBytes(n)[i]] == ZeroBytes(1);
  }

  /**
   * After the runs of 1..m zeros, the encoder is at byte i = 1 + ... + m + 1, matching one
   * zero, with the runs of 2..m + 1 zeros in the dictionary and next free code 256 + m.
   */
  lemma {:induction false} RunPhrases(n: nat, m: nat, i: nat, l: nat, next: nat)
    requires Triangle(m) < n && i == Triangle(m) + 1 && l == m + 1 && next == 256 + m && next < MaxCodes
    ensures Ready(RunDict(l), ZeroBytes(1))
    ensures EncodeCodes(ZeroBytes(n)) == EncodeFrom(ZeroBytes(n), i, RunDict(l), next, ZeroBytes(1), RunCodes(m))
  {
    RunDictHas(l, 1);
    if m == 0 {
      RunPhrasesFirst(n);
    } else {
      var k := m - 1;
      var t := Triangle(m);
      assert t == Triangle(k) + m;
      var i0 := Triangle(k) + 1;
      var z := ZeroBytes(n);
      var codes := RunCodes(k);
      RunPhrases(n, k, i0, m, 255 + m);
      RunExtends(n, i0, t, m, m, 255 + m, 1, codes);
      RunEmits(n, t, i, m, l, 255 + m, next, codes);
      calc {
        EncodeCodes(z);
        EncodeFrom(z, i0, RunDict(m), 255 + m, ZeroBytes(1), codes);
        EncodeFrom(z, t, RunDict(m), 255 + m, ZeroBytes(m), codes);
        EncodeFrom(z, i, RunDict(l), next, ZeroBytes(1), codes + [RunCode(m)]);
        { assert codes + [RunCode(m)] == RunCodes(m); }
        EncodeFrom(z, i, RunDict(l), next, ZeroBytes(1), RunCodes(m));
      }
    }
  }

  /** The encoder starts matching one zero, with the literals as its dictionary and no codes emitted. */
  lemma RunPhrasesFirst(n: nat)
    requires n > 0
    ensures Ready(RunDict(1), ZeroBytes(1))
    ensures EncodeCodes(ZeroBytes(n)) == EncodeFrom(ZeroBytes(n), 1, RunDict(1), 256, ZeroBytes(1), [])
  {
    RunDictHas(1, 1);
    assert [ZeroBytes(n)[0]] == ZeroBytes(1);
  }

  /**
   * The encoder on a run of zeros: writing n = (1 + ... + m) + r with 1 <= r <= m + 1, the
   * codes are those of the runs of 1, ..., m zeros followed by the code of the run of r.
   */
  lemma ZeroRunCodes(n: nat, m: nat, r: nat)
    requires n == Triangle(m) + r && 1 <= r <= m + 1 && 256 + m < MaxCodes
    ensures EncodeCodes(ZeroBytes(n)) == RunCodes(m) + [RunCode(r)]
  {
    var i := Triangle(m) + 1;
    RunPhrases(n, m, i, m + 1, 256 + m);
    RunExtends(n, i, n, m + 1, r, 256 + m, 1, RunCodes(m));
    RunDictHas(m + 1, r);
  }

  /** The number the run codes spell at 9 bits each after the first. */
  function RunValue(m: nat): nat
  {
    if m <= 1 then 0 else RunValue(m - 1) * 512 + RunCode(m)
  }

  /** The codes of the runs of 1..m zeros, the first in 8 bits and the rest in 9, form one (9m - 1)-bit number. */
  lemma {:induction false} RunCodeBits(m: nat)
    requires 1 <= m <= 257
    ensures CodeBits(RunCodes(m), 0) == BitsOf(RunValue(m), 9 * m - 1)
  {
    if m == 1 {
      CodeWidthFirst();
      assert CodeBits([0], 0) == BitsOf(0, 8) + CodeBits([], 1);
    } else {
      var k := m - 1;
      var prefix, c := RunCodes(k), RunCode(m);
      assert RunCodes(m) == prefix + [c];
      assert RunValue(m) == RunValue(k) * 512 + c;
      RunCodeBits(k);
      NineBitCode(prefix, c, RunValue(k), 9 * k - 1, RunValue(m), 9 * m - 1);
    }
  }

  /** A code written at index k, between 1 and 256, takes 9 more bits after those of the codes before it. */
  lemma NineBitCode(prefix: seq<nat>, c: nat, u: nat, w0: nat, v: nat, w: nat)
    requires 1 <= |prefix| <= 256 && c < 512
    requires CodeBits(prefix, 0) == BitsOf(u, w0)
    requires v == u * 512 + c && w == w0 + 9
    ensures CodeBits(prefix + [c], 0) == BitsOf(v, w)
  {
    CodeBitsAppend(prefix, c, 0);
    CodeWidthNine(0 + |prefix|);
    Pow2Small();
    BitsOfConcat(u, w0, c, 9, v, w);
  }

  /** The packed form of 1024 zero bytes that the tests expect, laid out as they write it. */
  const ZeroRunPacked: seq<Byte> :=
      [0x00, 0x80, 0x40, 0x60, 0x50, 0x38, 0x24, 0x16, 0x0d, 0x07, 0x84, 0x42, 0x61, 0x50, 0xb8, 0x64]
      + [0x36, 0x1d, 0x0f, 0x88, 0x44, 0x62, 0x51, 0x38, 0xa4, 0x56, 0x2d, 0x17, 0x8c, 0x46, 0x63, 0x51]
      + [0xb8, 0xe4, 0x76, 0x3d, 0x1f, 0x90, 0x48, 0x64, 0x52, 0x39, 0x24, 0x96, 0x4d, 0x27, 0x94, 0x4a]
      + [0x65, 0x52, 0x00]

  /** The 45 codes for 1024 zeros: the runs of 1..44 zeros, then the run of the 34 left over. */
  lemma ZeroRunVectorCodes(n: nat)
    requires n == 1024
    ensures EncodeCodes(ZeroBytes(n)) == RunCodes(44) + [RunCode(34)]
  {
    ZeroRunTriangle();
    ZeroRunCodes(n, 44, 34);
  }

  lemma ZeroRunTriangle()
    ensures Triangle(44) == 990
  {
    assert Triangle(10) == 55;
    assert Triangle(20) == 210;
    assert Triangle(30) == 465;
    assert Triangle(40) == 820;
  }

  /** The codes of the runs of 1..m zeros and a last run of r zeros form one (9m + 8)-bit number. */
  lemma {:induction false} RunCodeBitsThen(m: nat, r: nat, v: nat, w: nat)
    requires 1 <= m <= 256 && 1 <= r <= m + 1
    requires v == RunValue(m) * 512 + RunCode(r) && w == 9 * m + 8
    ensures CodeBits(RunCodes(m) + [RunCode(r)], 0) == BitsOf(v, w)
  {
    RunCodeBits(m);
    NineBitCode(RunCodes(m), RunCode(r), RunValue(m), 9 * m - 1, v, w);
  }

  lemma RunValue12()
    ensures RunValue(12) == 0x402030281c120b0683c22130a
  {
    assert RunValue(2) == 0x100;
    assert RunValue(3) == 0x20101;
    assert RunValue(4) == 0x4020302;
    assert RunValue(5) == 0x804060503;
    assert RunValue(6) == 0x10080c0a0704;
    assert RunValue(7) == 0x201018140e0905;
    assert RunValue(8) == 0x402030281c120b06;
    assert RunValue(9) == 0x804060503824160d07;
    assert RunValue(10) == 0x10080c0a070482c1a0f08;
    assert RunValue(11) == 0x201018140e09058341e1109;
  }

  lemma RunValue23()
    ensures RunValue(23) == 0x201018140e09058341e11098542e190d8743e21118944e2915
  {
    RunValue12();
    assert RunValue(13) == 0x804060503824160d0784426150b;
    assert RunValue(14) == 0x10080c0a070482c1a0f0884c2a170c;
    assert RunValue(15) == 0x201018140e09058341e11098542e190d;
    assert RunValue(16) == 0x402030281c120b0683c22130a85c321b0e;
    assert RunValue(17) == 0x804060503824160d0784426150b864361d0f;
    assert RunValue(18) == 0x10080c0a070482c1a0f0884c2a170c86c3a1f10;
    assert RunValue(19) == 0x201018140e09058341e11098542e190d8743e2111;
    assert RunValue(20) == 0x402030281c120b0683c22130a85c321b0e87c422312;
    assert RunValue(21) == 0x804060503824160d0784426150b864361d0f884462513;
    assert RunValue(22) == 0x10080c0a070482c1a0f0884c2a170c86c3a1f1088c4a2714;
  }

  lemma RunValue34()
    ensures RunValue(34) == 0x10080c0a070482c1a0f0884c2a170c86c3a1f1088c4a27148ac5a2f188cc6a371c8ec7a3f20
  {
    RunValue23();
    assert RunValue(24) == 0x402030281c120b0683c22130a85c321b0e87c42231289c522b16;
    assert RunValue(25) == 0x804060503824160d0784426150b864361d0f8844625138a4562d17;
    assert RunValue(26) == 0x10080c0a070482c1a0f0884c2a170c86c3a1f1088c4a27148ac5a2f18;
    assert RunValue(27) == 0x201018140e09058341e11098542e190d8743e21118944e29158b45e3119;
    assert RunValue(28) == 0x402030281c120b0683c22130a85c321b0e87c42231289c522b168bc62331a;
    assert RunValue(29) == 0x804060503824160d0784426150b864361d0f8844625138a4562d178c466351b;
    assert RunValue(30) == 0x10080c0a070482c1a0f0884c2a170c86c3a1f1088c4a27148ac5a2f188cc6a371c;
    assert RunValue(31) == 0x201018140e09058341e11098542e190d8743e21118944e29158b45e31198d46e391d;
    assert RunValue(32) == 0x402030281c120b0683c22130a85c321b0e87c42231289c522b168bc62331a8dc723b1e;
    assert RunValue(33) == 0x804060503824160d0784426150b864361d0f8844625138a4562d178c466351b8e4763d1f;
  }

  lemma RunValue44()
    ensures RunValue(44) == 0x402030281c120b0683c22130a85c321b0e87c42231289c522b168bc62331a8dc723b1e8fc82432291c924b2693ca2532a
  {
    RunValue34();
    assert RunValue(35) == 0x201018140e09058341e11098542e190d8743e21118944e29158b45e31198d46e391d8f47e4121;
    assert RunValue(36) == 0x402030281c120b0683c22130a85c321b0e87c42231289c522b168bc62331a8dc723b1e8fc824322;
    assert RunValue(37) == 0x804060503824160d0784426150b864361d0f8844625138a4562d178c466351b8e4763d1f904864523;
    assert RunValue(38) == 0x10080c0a070482c1a0f0884c2a170c86c3a1f1088c4a27148ac5a2f188cc6a371c8ec7a3f2090c8a4724;
    assert RunValue(39) == 0x201018140e09058341e11098542e190d8743e21118944e29158b45e31198d46e391d8f47e41219148e4925;
    assert RunValue(40) == 0x402030281c120b0683c22130a85c321b0e87c42231289c522b168bc62331a8dc723b1e8fc82432291c924b26;
    assert RunValue(41) == 0x804060503824160d0784426150b864361d0f8844625138a4562d178c466351b8e4763d1f904864523924964d27;
    assert RunValue(42) == 0x10080c0a070482c1a0f0884c2a170c86c3a1f1088c4a27148ac5a2f188cc6a371c8ec7a3f2090c8a472492c9a4f28;
    assert RunValue(43) == 0x201018140e09058341e11098542e190d8743e21118944e29158b45e31198d46e391d8f47e41219148e49259349e5129;
  }

  lemma ZeroRunPackedValue7(v: seq<Byte>)
    requires v == ZeroRunPacked
    ensures BytesValue(v, 7) == 0x804060503824
  {
    assert BytesValue(v, 1) == 0x0;
    assert BytesValue(v, 2) == 0x80;
    assert BytesValue(v, 3) == 0x8040;
    assert BytesValue(v, 4) == 0x804060;
    assert BytesValue(v, 5) == 0x80406050;
    assert BytesValue(v, 6) == 0x8040605038;
  }

  lemma ZeroRunPackedValue13(v: seq<Byte>)
    requires v == ZeroRunPacked
    ensures BytesValue(v, 13) == 0x804060503824160d07844261
  {
    ZeroRunPackedValue7(v);
    assert BytesValue(v, 8) == 0x80406050382416;
    assert BytesValue(v, 9) == 0x804060503824160d;
    assert BytesValue(v, 10) == 0x804060503824160d07;
    assert BytesValue(v, 11) == 0x804060503824160d0784;
    assert BytesValue(v, 12) == 0x804060503824160d078442;
  }

  lemma ZeroRunPackedValue20(v: seq<Byte>)
    requires v == ZeroRunPacked
    ensures BytesValue(v, 20) == 0x804060503824160d0784426150b864361d0f88
  {
    ZeroRunPackedValue13(v);
    assert BytesValue(v, 14) == 0x804060503824160d0784426150;
    assert BytesValue(v, 15) == 0x804060503824160d0784426150b8;
    assert BytesValue(v, 16) == 0x804060503824160d0784426150b864;
    assert BytesValue(v, 17) == 0x804060503824160d0784426150b86436;
    assert BytesValue(v, 18) == 0x804060503824160d0784426150b864361d;
    assert BytesValue(v, 19) == 0x804060503824160d0784426150b864361d0f;
  }

  lemma ZeroRunPackedValue26(v: seq<Byte>)
    requires v == ZeroRunPacked
    ensures BytesValue(v, 26) == 0x804060503824160d0784426150b864361d0f8844625138a456
  {
    ZeroRunPackedValue20(v);
    assert BytesValue(v, 21) == 0x804060503824160d0784426150b864361d0f8844;
    assert BytesValue(v, 22) == 0x804060503824160d0784426150b864361d0f884462;
    assert BytesValue(v, 23) == 0x804060503824160d0784426150b864361d0f88446251;
    assert BytesValue(v, 24) == 0x804060503824160d0784426150b864361d0f8844625138;
    assert BytesValue(v, 25) == 0x804060503824160d0784426150b864361d0f8844625138a4;
  }

  lemma ZeroRunPackedValue33(v: seq<Byte>)
    requires v == ZeroRunPacked
    ensures BytesValue(v, 33) == 0x804060503824160d0784426150b864361d0f8844625138a4562d178c466351b8
  {
    ZeroRunPackedValue26(v);
    assert BytesValue(v, 27) == 0x804060503824160d0784426150b864361d0f8844625138a4562d;
    assert BytesValue(v, 28) == 0x804060503824160d0784426150b864361d0f8844625138a4562d17;
    assert BytesValue(v, 29) == 0x804060503824160d0784426150b864361d0f8844625138a4562d178c;
    assert BytesValue(v, 30) == 0x804060503824160d0784426150b864361d0f8844625138a4562d178c46;
    assert BytesValue(v, 31) == 0x804060503824160d0784426150b864361d0f8844625138a4562d178c4663;
    assert BytesValue(v, 32) == 0x804060503824160d0784426150b864361d0f8844625138a4562d178c466351;
  }

  lemma ZeroRunPackedValue39(v: seq<Byte>)
    requires v == ZeroRunPacked
    ensures BytesValue(v, 39) == 0x804060503824160d0784426150b864361d0f8844625138a4562d178c466351b8e4763d1f9048
  {
    ZeroRunPackedValue33(v);
    assert BytesValue(v, 34) == 0x804060503824160d0784426150b864361d0f8844625138a4562d178c466351b8e4;
    assert BytesValue(v, 35) == 0x804060503824160d0784426150b864361d0f8844625138a4562d178c466351b8e476;
    assert BytesValue(v, 36) == 0x804060503824160d0784426150b864361d0f8844625138a4562d178c466351b8e4763d;
    assert BytesValue(v, 37) == 0x804060503824160d0784426150b864361d0f8844625138a4562d178c466351b8e4763d1f;
    assert BytesValue(v, 38) == 0x804060503824160d0784426150b864361d0f8844625138a4562d178c466351b8e4763d1f90;
  }

  lemma ZeroRunPackedValue45(v: seq<Byte>)
    requires v == ZeroRunPacked
    ensures BytesValue(v, 45) == 0x804060503824160d0784426150b864361d0f8844625138a4562d178c466351b8e4763d1f904864523924964d
  {
    ZeroRunPackedValue39(v);
    assert BytesValue(v, 40) == 0x804060503824160d0784426150b864361d0f8844625138a4562d178c466351b8e4763d1f904864;
    assert BytesValue(v, 41) == 0x804060503824160d0784426150b864361d0f8844625138a4562d178c466351b8e4763d1f90486452;
    assert BytesValue(v, 42) == 0x804060503824160d0784426150b864361d0f8844625138a4562d178c466351b8e4763d1f9048645239;
    assert BytesValue(v, 43) == 0x804060503824160d0784426150b864361d0f8844625138a4562d178c466351b8e4763d1f904864523924;
    assert BytesValue(v, 44) == 0x804060503824160d0784426150b864361d0f8844625138a4562d178c466351b8e4763d1f90486452392496;
  }

  lemma ZeroRunPackedValue51(v: seq<Byte>)
    requires v == ZeroRunPacked
    ensures BytesValue(v, 51) == 0x804060503824160d0784426150b864361d0f8844625138a4562d178c466351b8e4763d1f904864523924964d27944a655200
  {
    ZeroRunPackedValue45(v);
    assert BytesValue(v, 46) == 0x804060503824160d0784426150b864361d0f8844625138a4562d178c466351b8e4763d1f904864523924964d27;
    assert BytesValue(v, 47) == 0x804060503824160d0784426150b864361d0f8844625138a4562d178c466351b8e4763d1f904864523924964d2794;
    assert BytesValue(v, 48) == 0x804060503824160d0784426150b864361d0f8844625138a4562d178c466351b8e4763d1f904864523924964d27944a;
    assert BytesValue(v, 49) == 0x804060503824160d0784426150b864361d0f8844625138a4562d178c466351b8e4763d1f904864523924964d27944a65;
    assert BytesValue(v, 50) == 0x804060503824160d0784426150b864361d0f8844625138a4562d178c466351b8e4763d1f904864523924964d27944a6552;
  }

  /**
   * `compress` of 1024 zero bytes is exactly the expected 51 bytes; `uncompress` of them
   * with ratio 200 gives the 1024 zeros back, and with ratio 10 fails because
   * 1024 > 51 * 10.
   */
  lemma ZeroRun(data: seq<Byte>, packed: seq<Byte>)
    requires data == ZeroBytes(1024) && packed == ZeroRunPacked
    ensures Compressed(data) == Some(packed)
    ensures Uncompressed(packed, MaxDeflateRatio) == Ok(data)
    ensures Uncompressed(packed, 10) == Err(RatioExceeded)
  {
    ZeroRunEncoded(|data|, data, packed);
    assert |data| == 1024 && |packed| == 51;
    RoundTrip(data, MaxDeflateRatio);
    RoundTrip(data, 10);
  }

  /** 1024 zeros are written as the 45 codes of the runs: one 404-bit number. */
  lemma ZeroRunBits(n: nat, data: seq<Byte>, v: nat, w: nat)
    requires n == 1024 && data == ZeroBytes(n)
    requires v == 0x804060503824160d0784426150b864361d0f8844625138a4562d178c466351b8e4763d1f904864523924964d27944a65520 && w == 404
    ensures CodeBits(EncodeCodes(data), 0) == BitsOf(v, w)
  {
    ZeroRunVectorCodes(n);
    RunValue44();
    RunCodeBitsThen(44, 34, v, w);
  }

  /** Those 404 bits and 4 bits of padding are the 51 bytes of ZeroRunPacked. */
  lemma ZeroRunEncoded(n: nat, data: seq<Byte>, packed: seq<Byte>)
    requires n == 1024 && data == ZeroBytes(n) && packed == ZeroRunPacked
    ensures Encode(data) == packed
  {
    var v, w := 0x804060503824160d0784426150b864361d0f8844625138a4562d178c466351b8e4763d1f904864523924964d27944a65520, 404;
    ZeroRunBits(n, data, v, w);
    ZeroRunPackedValue51(packed);
    PadLengthOf(50, 4);
    assert Pow2(4) == 16;
    PackValue(CodeBits(EncodeCodes(data), 0), v, packed);
  }

  // ---------------------------------------------------------------------------
  // Round trip of a message

  /** The XML request the round-trip test compresses, 292 bytes. */
  const XmlRequest: seq<Byte> :=
      [0x3c, 0x72, 0x65, 0x71, 0x75, 0x65, 0x73, 0x74, 0x3e, 0x3c, 0x68, 0x65, 0x61, 0x64, 0x65, 0x72]
      + [0x3e, 0x3c, 0x70, 0x72, 0x65, 0x66, 0x65, 0x72, 0x72, 0x65, 0x64, 0x6c, 0x61, 0x6e, 0x67, 0x75]
      + [0x61, 0x67, 0x65, 0x73, 0x3e, 0x3c, 0x61, 0x70, 0x70, 0x73, 0x65, 0x6c, 0x65, 0x63, 0x74, 0x65]
      + [0x64, 0x6c, 0x61, 0x6e, 0x67, 0x75, 0x61, 0x67, 0x65, 0x73, 0x3e, 0x3c, 0x6c, 0x61, 0x6e, 0x67]
      + [0x75, 0x61, 0x67, 0x65, 0x3e, 0x3c, 0x69, 0x6e, 0x64, 0x65, 0x78, 0x3e, 0x30, 0x3c, 0x2f, 0x69]
      + [0x6e, 0x64, 0x65, 0x78, 0x3e, 0x3c, 0x62, 0x63, 0x70, 0x34, 0x37, 0x3e, 0x65, 0x6e, 0x3c, 0x2f]
      + [0x62, 0x63, 0x70, 0x34, 0x37, 0x3e, 0x3c, 0x2f, 0x6c, 0x61, 0x6e, 0x67, 0x75, 0x61, 0x67, 0x65]
      + [0x3e, 0x3c, 0x2f, 0x61, 0x70, 0x70, 0x73, 0x65, 0x6c, 0x65, 0x63, 0x74, 0x65, 0x64, 0x6c, 0x61]
      + [0x6e, 0x67, 0x75, 0x61, 0x67, 0x65, 0x73, 0x3e, 0x3c, 0x2f, 0x70, 0x72, 0x65, 0x66, 0x65, 0x72]
      + [0x72, 0x65, 0x64, 0x6c, 0x61, 0x6e, 0x67, 0x75, 0x61, 0x67, 0x65, 0x73, 0x3e, 0x3c, 0x63, 0x6c]
      + [0x69, 0x65, 0x6e, 0x74, 0x73, 0x65, 0x72, 0x76, 0x65, 0x72, 0x74, 0x69, 0x6d, 0x65, 0x73, 0x3e]
      + [0x3c, 0x73, 0x65, 0x72, 0x76, 0x65, 0x72, 0x74, 0x69, 0x6d, 0x65, 0x3e, 0x31, 0x33, 0x36, 0x33]
      + [0x33, 0x39, 0x36, 0x33, 0x34, 0x37, 0x3c, 0x2f, 0x73, 0x65, 0x72, 0x76, 0x65, 0x72, 0x74, 0x69]
      + [0x6d, 0x65, 0x3e, 0x3c, 0x63, 0x6c, 0x69, 0x65, 0x6e, 0x74, 0x74, 0x69, 0x6d, 0x65, 0x3e, 0x31]
      + [0x33, 0x36, 0x33, 0x33, 0x39, 0x36, 0x33, 0x34, 0x37, 0x3c, 0x2f, 0x63, 0x6c, 0x69, 0x65, 0x6e]
      + [0x74, 0x74, 0x69, 0x6d, 0x65, 0x3e, 0x3c, 0x2f, 0x63, 0x6c, 0x69, 0x65, 0x6e, 0x74, 0x73, 0x65]
      + [0x72, 0x76, 0x65, 0x72, 0x74, 0x69, 0x6d, 0x65, 0x73, 0x3e, 0x3c, 0x2f, 0x68, 0x65, 0x61, 0x64]
      + [0x65, 0x72, 0x3e, 0x3c, 0x70, 0x69, 0x6e, 0x67, 0x2f, 0x3e, 0x3c, 0x2f, 0x72, 0x65, 0x71, 0x75]
      + [0x65, 0x73, 0x74, 0x3e]

  /**
   * `uncompress(compress(data), 200)` gives the XML request back whenever `compress`
   * returns a result: that result is at least two bytes, so the ratio admits 400 >= 292 bytes.
   */
  lemma XmlRoundTrip(data: seq<Byte>)
    requires data == XmlRequest
    ensures Compressed(data).Some? ==> Uncompressed(Compressed(data).value, MaxDeflateRatio) == Ok(data)
  {
    assert |data| == 292;
    ShortRoundTrip(data, MaxDeflateRatio);
  }

  /** Data of at most 2 * ratio bytes (two at least) comes back from the result of `compress`. */
  lemma ShortRoundTrip(data: seq<Byte>, ratio: nat)
    requires 2 <= |data| <= 2 * ratio
    ensures Compressed(data).Some? ==> Uncompressed(Compressed(data).value, ratio) == Ok(data)
  {
    var packed := Encode(data);
    EncodeAtLeastTwo(data);
    LimitAtLeast(|packed|, 2, ratio);
    RoundTrip(data, ratio);
  }

  /** The output limit grows with the input length. */
  lemma LimitAtLeast(n: nat, k: nat, ratio: nat)
    requires n >= k
    ensures OutputLimit(n, ratio) >= k * ratio
  {
  }
}
