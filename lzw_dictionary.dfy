/**
 * The dictionary model the LZW encoder and decoder share: codes 0..255 are the
 * single-byte literals, and every later code is assigned, in order, to a phrase
 * followed by the first byte of the phrase after it.  Neither side transmits the
 * dictionary; both rebuild it from the phrases, and the code width is a function
 * of how many codes exist.
 */
module LzwDictionary {
  import opened Bits

  /** Codes 0..255 stand for the 256 single bytes. */
  const LiteralCount: nat := 256

  /** The widest code ever written.  The source does not show its limit; 16 bits is the convention chosen here. */
  const MaxCodeWidth: nat := 16

  /** Number of codes in a full dictionary, 2^MaxCodeWidth; once reached, no entry is added. */
  const MaxCodes: nat := 65536

  /** The code-to-sequence table both sides start from: code b is the one-byte sequence [b]. */
  function Literals(): (t: seq<seq<Byte>>)
    ensures |t| == LiteralCount
    ensures forall b: Byte :: t[b] == [b]
  {
    seq(256, (i: int) requires 0 <= i < 256 => [i as Byte])
  }

  /** The sequence-to-code map the encoder starts from: [b] has code b. */
  function LiteralDict(): (d: map<seq<Byte>, nat>)
    ensures forall s :: s in d <==> |s| == 1
    ensures forall b: Byte :: d[[b]] == b
  {
    var d := map b: Byte | 0 <= b < 256 :: [b] := b as nat;
    assert forall s: seq<Byte> :: |s| == 1 ==> s == [s[0]];
    d
  }

  /** Adds one entry at the next free code, unless the dictionary is full. */
  function Grow(table: seq<seq<Byte>>, entry: seq<Byte>): seq<seq<Byte>>
  {
    if |table| < MaxCodes then table + [entry] else table
  }

  /** Number of codes that exist once i entries past the literals have been due: the free-code counter. */
  function DictSize(i: nat): nat
  {
    if LiteralCount + i < MaxCodes then LiteralCount + i else MaxCodes
  }

  /**
   * The width of the code with index i in the stream: the bit length of the largest
   * code that exists when the encoder emits it.  The encoder has added one entry
   * before each code but the first, so the first code takes 8 bits and the next ones 9.
   */
  function CodeWidth(i: nat): nat
  {
    BitLength(DictSize(i) - 1)
  }

  lemma CodeWidthBounds(i: nat)
    ensures 8 <= CodeWidth(i) <= MaxCodeWidth
    ensures DictSize(i) <= Pow2(CodeWidth(i))
  {
    assert Pow2(8) == 256;
    assert Pow2(16) == 65536;
    BitLengthMonotone(255, DictSize(i) - 1);
    BitLengthMonotone(DictSize(i) - 1, 65535);
    BitLengthIs(255, 8);
    BitLengthIs(65535, 16);
    BitLengthBounds(DictSize(i) - 1);
  }

  lemma CodeWidthFirst()
    ensures CodeWidth(0) == 8
  {
    assert Pow2(8) == 256;
    BitLengthIs(255, 8);
  }

  /** Codes 1..256 are written in 9 bits: code 256 exists and code 512 does not. */
  lemma CodeWidthNine(i: nat)
    requires 1 <= i <= 256
    ensures CodeWidth(i) == 9
  {
    assert Pow2(9) == 512;
    BitLengthIs(DictSize(i) - 1, 9);
  }

  ghost predicate NonEmpty(ps: seq<seq<Byte>>)
  {
    forall i :: 0 <= i < |ps| ==> |ps[i]| > 0
  }

  /** The bytes of a list of phrases, in order. */
  function Concat(ps: seq<seq<Byte>>): seq<Byte>
  {
    if ps == [] then [] else Concat(ps[..|ps| - 1]) + ps[|ps| - 1]
  }

  lemma {:induction false} ConcatAppend(ps: seq<seq<Byte>>, p: seq<Byte>)
    ensures Concat(ps + [p]) == Concat(ps) + p
  {
    assert (ps + [p])[..|ps|] == ps;
  }

  lemma {:induction false} ConcatPrefixLength(ps: seq<seq<Byte>>, k: nat)
    requires k <= |ps|
    ensures |Concat(ps[..k])| <= |Concat(ps)|
    decreases |ps|
  {
    if k < |ps| {
      assert ps[..|ps| - 1][..k] == ps[..k];
      ConcatPrefixLength(ps[..|ps| - 1], k);
    } else {
      assert ps[..k] == ps;
    }
  }

  /**
   * The table both sides hold once the phrases ps have been seen: the literals, then
   * for each phrase but the last, that phrase followed by the first byte of the next.
   * Only the first byte of the last phrase matters, so it may still be growing.
   */
  ghost function Entries(ps: seq<seq<Byte>>): (t: seq<seq<Byte>>)
    requires NonEmpty(ps)
    ensures |ps| > 0 ==> |t| == DictSize(|ps| - 1)
    ensures NonEmpty(t)
    ensures |t| >= LiteralCount
    ensures t[..LiteralCount] == Literals()
  {
    if |ps| <= 1 then Literals()
    else
      var t := Entries(ps[..|ps| - 1]);
      Grow(t, ps[|ps| - 2] + [ps[|ps| - 1][0]])
  }

  /** The table only depends on the first byte of the last phrase. */
  lemma EntriesLastPhrase(ps: seq<seq<Byte>>, m: seq<Byte>, m': seq<Byte>)
    requires NonEmpty(ps) && |m| > 0 && |m'| > 0 && m[0] == m'[0]
    ensures Entries(ps + [m]) == Entries(ps + [m'])
  {
    var a, b := ps + [m], ps + [m'];
    assert NonEmpty(a) && NonEmpty(b);
    if |ps| > 0 {
      assert a[..|ps|] == ps && b[..|ps|] == ps;
      assert a[|ps| - 1] == b[|ps| - 1];
    }
  }

  /** Seeing one more phrase adds the previous phrase and the new phrase's first byte. */
  lemma EntriesStep(ps: seq<seq<Byte>>, k: nat)
    requires NonEmpty(ps) && 1 <= k < |ps|
    ensures Entries(ps[..k + 1]) == Grow(Entries(ps[..k]), ps[k - 1] + [ps[k][0]])
  {
    assert ps[..k + 1][..k] == ps[..k];
  }

  /** Code c names the last of the phrases ps in the table that exists once ps have been seen. */
  ghost predicate Names(c: nat, ps: seq<seq<Byte>>)
  {
    && |ps| > 0
    && NonEmpty(ps)
    && c < |Entries(ps)|
    && Entries(ps)[c] == ps[|ps| - 1]
  }

  /**
   * What the encoder guarantees of its output: `codes` come with phrases that spell the
   * input, and code i names phrase i in the table that exists when it is emitted.
   */
  ghost predicate ValidEncoding(codes: seq<nat>, ps: seq<seq<Byte>>)
  {
    && |codes| == |ps|
    && NonEmpty(ps)
    && forall i :: 0 <= i < |ps| ==> Names(codes[i], ps[..i + 1])
  }
}
