/**
 * The reference definition of `LzwCompression.compress`: the greedy LZW scan that
 * turns bytes into codes, the packing of those codes MSB-first at their widths, and
 * the rule that a packed result longer than the input is replaced by `null`.
 */
module LzwEncoder {
  import opened Bits
  import opened Results
  import opened LzwDictionary

  /** What the encoder's lookups rely on: every literal has a code, and so does the current match. */
  ghost predicate Ready(dict: map<seq<Byte>, nat>, current: seq<Byte>)
  {
    (forall b: Byte :: [b] in dict) && current in dict
  }

  /**
   * The encoder's scan from byte i on.  `current` is the phrase being extended, `next` the
   * free-code counter and `codes` what has been emitted.  When current + [b] has no code,
   * the code of current is emitted, current + [b] gets the next free code (unless the
   * dictionary is full) and matching restarts from [b]; at the end the code of the
   * final current is emitted.  The result extends what was already emitted.
   */
  function EncodeFrom(data: seq<Byte>, i: nat, dict: map<seq<Byte>, nat>, next: nat,
                      current: seq<Byte>, codes: seq<nat>): (r: seq<nat>)
    requires i <= |data| && Ready(dict, current)
    ensures |codes| < |r| <= |codes| + |data| - i + 1
    ensures r[..|codes|] == codes
    decreases |data| - i
  {
    if i == |data| then codes + [dict[current]]
    else
      var b := data[i];
      var extended := current + [b];
      if extended in dict then
        EncodeFrom(data, i + 1, dict, next, extended, codes)
      else if next < MaxCodes then
        EncodeFrom(data, i + 1, dict[extended := next], next + 1, [b], codes + [dict[current]])
      else
        EncodeFrom(data, i + 1, dict, next, [b], codes + [dict[current]])
  }

  /** The codes the encoder emits for data; none for empty input. */
  function EncodeCodes(data: seq<Byte>): seq<nat>
  {
    if data == [] then [] else EncodeFrom(data, 1, LiteralDict(), LiteralCount, [data[0]], [])
  }

  /** The bit stream of codes whose first one has index i in the stream, each at its width. */
  function CodeBits(codes: seq<nat>, i: nat): seq<bool>
    decreases |codes|
  {
    if codes == [] then [] else BitsOf(codes[0], CodeWidth(i)) + CodeBits(codes[1..], i + 1)
  }

  /** The packed stream for data, before the no-benefit rule is applied. */
  function Encode(data: seq<Byte>): seq<Byte>
  {
    Pack(CodeBits(EncodeCodes(data), 0))
  }

  /** `compress`: the packed stream, or None (the source's `null`) when it is longer than the input. */
  function Compressed(data: seq<Byte>): Option<seq<Byte>>
  {
    var packed := Encode(data);
    if |packed| > |data| then None else Some(packed)
  }

  // ---------------------------------------------------------------------------
  // Facts about the bit stream

  lemma {:induction false} CodeBitsLength(codes: seq<nat>, i: nat)
    ensures |CodeBits(codes, i)| >= 8 * |codes|
    decreases |codes|
  {
    if codes != [] {
      CodeWidthBounds(i);
      CodeBitsLength(codes[1..], i + 1);
    }
  }

  /** Writing one more code appends its bits at the width its index calls for. */
  lemma {:induction false} CodeBitsAppend(codes: seq<nat>, c: nat, i: nat)
    ensures CodeBits(codes + [c], i) == CodeBits(codes, i) + BitsOf(c, CodeWidth(i + |codes|))
    decreases |codes|
  {
    if codes == [] {
      assert CodeBits([c][1..], i + 1) == [];
    } else {
      assert (codes + [c])[0] == codes[0];
      assert (codes + [c])[1..] == codes[1..] + [c];
      CodeBitsAppend(codes[1..], c, i + 1);
      AppendAssoc(BitsOf(codes[0], CodeWidth(i)), CodeBits(codes[1..], i + 1), BitsOf(c, CodeWidth(i + |codes|)));
    }
  }

  // ---------------------------------------------------------------------------
  // What the encoder guarantees: its codes name, in order, phrases that spell the input

  /** dict maps each of its keys to that key's code in table t. */
  ghost predicate Agrees(dict: map<seq<Byte>, nat>, t: seq<seq<Byte>>)
  {
    forall s :: s in dict ==> dict[s] < |t| && t[dict[s]] == s
  }

  /**
   * The encoder's state after i bytes, relative to the phrases ps it has emitted codes for:
   * the phrases and the current match spell the bytes read, the free-code counter is the
   * size of the table both sides hold, and dict agrees with that table.
   */
  ghost predicate Tracks(data: seq<Byte>, i: nat, dict: map<seq<Byte>, nat>, next: nat,
                         current: seq<Byte>, codes: seq<nat>, ps: seq<seq<Byte>>)
  {
    && i <= |data|
    && |current| > 0
    && ValidEncoding(codes, ps)
    && NonEmpty(ps + [current])
    && Concat(ps) + current == data[..i]
    && next == |Entries(ps + [current])|
    && Agrees(dict, Entries(ps + [current]))
  }

  /** Emitting the code of the current match keeps the emitted codes valid. */
  lemma EmitValid(codes: seq<nat>, ps: seq<seq<Byte>>, current: seq<Byte>, c: nat)
    requires ValidEncoding(codes, ps) && NonEmpty(ps + [current])
    requires Names(c, ps + [current])
    ensures ValidEncoding(codes + [c], ps + [current])
  {
    var ps', codes' := ps + [current], codes + [c];
    assert ps'[..|ps| + 1] == ps';
    forall j | 0 <= j < |ps|
      ensures Names(codes'[j], ps'[..j + 1])
    {
      assert ps'[..j + 1] == ps[..j + 1];
    }
  }

  /** Extending the match by a byte that keeps it in the dictionary keeps the invariant. */
  lemma TracksExtend(data: seq<Byte>, i: nat, dict: map<seq<Byte>, nat>, next: nat,
                     current: seq<Byte>, codes: seq<nat>, ps: seq<seq<Byte>>)
    requires Tracks(data, i, dict, next, current, codes, ps) && i < |data|
    ensures Tracks(data, i + 1, dict, next, current + [data[i]], codes, ps)
  {
    var extended := current + [data[i]];
    assert data[..i + 1] == data[..i] + [data[i]];
    EntriesLastPhrase(ps, current, extended);
  }

  /**
   * Emitting the code of the match and restarting from [b] keeps the invariant, with the
   * match as a new phrase, once the table has grown by match + [b] as the dictionary rule says.
   */
  lemma TracksEmit(data: seq<Byte>, i: nat, dict: map<seq<Byte>, nat>, next: nat,
                   current: seq<Byte>, codes: seq<nat>, ps: seq<seq<Byte>>)
    requires Tracks(data, i, dict, next, current, codes, ps) && Ready(dict, current) && i < |data|
    ensures var ps' := ps + [current];
            && ValidEncoding(codes + [dict[current]], ps')
            && NonEmpty(ps' + [[data[i]]])
            && Concat(ps') + [data[i]] == data[..i + 1]
            && Entries(ps' + [[data[i]]]) == Grow(Entries(ps + [current]), current + [data[i]])
  {
    var b := data[i];
    var ps' := ps + [current];
    assert Names(dict[current], ps');
    EmitValid(codes, ps, current, dict[current]);
    ConcatAppend(ps, current);
    assert data[..i + 1] == data[..i] + [b];
    EntriesStep(ps' + [[b]], |ps| + 1);
    assert (ps' + [[b]])[..|ps| + 2] == ps' + [[b]];
    assert (ps' + [[b]])[..|ps| + 1] == ps';
  }

  /** The case where the dictionary has room: match + [b] gets the free code. */
  lemma TracksEmitGrow(data: seq<Byte>, i: nat, dict: map<seq<Byte>, nat>, next: nat,
                       current: seq<Byte>, codes: seq<nat>, ps: seq<seq<Byte>>)
    requires Tracks(data, i, dict, next, current, codes, ps) && Ready(dict, current) && i < |data|
    requires current + [data[i]] !in dict && next < MaxCodes
    ensures Tracks(data, i + 1, dict[current + [data[i]] := next], next + 1, [data[i]],
                   codes + [dict[current]], ps + [current])
  {
    TracksEmit(data, i, dict, next, current, codes, ps);
  }

  /** The case where the dictionary is full: nothing is added. */
  lemma TracksEmitFull(data: seq<Byte>, i: nat, dict: map<seq<Byte>, nat>, next: nat,
                       current: seq<Byte>, codes: seq<nat>, ps: seq<seq<Byte>>)
    requires Tracks(data, i, dict, next, current, codes, ps) && Ready(dict, current) && i < |data|
    requires next >= MaxCodes
    ensures Tracks(data, i + 1, dict, next, [data[i]], codes + [dict[current]], ps + [current])
  {
    TracksEmit(data, i, dict, next, current, codes, ps);
  }

  /** At the end of the input, the last code names the current match and the phrases spell the input. */
  lemma EncodeFromEnd(data: seq<Byte>, i: nat, dict: map<seq<Byte>, nat>, next: nat,
                      current: seq<Byte>, codes: seq<nat>, ps: seq<seq<Byte>>)
    returns (phrases: seq<seq<Byte>>)
    requires Ready(dict, current)
    requires Tracks(data, i, dict, next, current, codes, ps)
    requires i == |data|
    ensures ValidEncoding(codes + [dict[current]], phrases)
    ensures Concat(phrases) == data
  {
    assert Names(dict[current], ps + [current]);
    EmitValid(codes, ps, current, dict[current]);
    ConcatAppend(ps, current);
    assert data[..i] == data;
    phrases := ps + [current];
  }

  /** From a state the invariant describes, the encoder's remaining scan yields a valid encoding of the input. */
  lemma {:induction false} EncodeFromValid(data: seq<Byte>, i: nat, dict: map<seq<Byte>, nat>, next: nat,
                                           current: seq<Byte>, codes: seq<nat>, ps: seq<seq<Byte>>)
    returns (phrases: seq<seq<Byte>>)
    requires Ready(dict, current)
    requires Tracks(data, i, dict, next, current, codes, ps)
    ensures ValidEncoding(EncodeFrom(data, i, dict, next, current, codes), phrases)
    ensures Concat(phrases) == data
    decreases |data| - i, 1
  {
    if i == |data| {
      phrases := EncodeFromEnd(data, i, dict, next, current, codes, ps);
    } else if current + [data[i]] in dict {
      TracksExtend(data, i, dict, next, current, codes, ps);
      phrases := EncodeFromValid(data, i + 1, dict, next, current + [data[i]], codes, ps);
    } else if next < MaxCodes {
      phrases := EncodeFromGrow(data, i, dict, next, current, codes, ps);
    } else {
      phrases := EncodeFromFull(data, i, dict, next, current, codes, ps);
    }
  }

  /** The step of EncodeFromValid where the match cannot be extended and the dictionary has room. */
  lemma {:induction false} EncodeFromGrow(data: seq<Byte>, i: nat, dict: map<seq<Byte>, nat>, next: nat,
                                          current: seq<Byte>, codes: seq<nat>, ps: seq<seq<Byte>>)
    returns (phrases: seq<seq<Byte>>)
    requires Ready(dict, current)
    requires Tracks(data, i, dict, next, current, codes, ps)
    requires i < |data| && current + [data[i]] !in dict && next < MaxCodes
    ensures ValidEncoding(EncodeFrom(data, i, dict, next, current, codes), phrases)
    ensures Concat(phrases) == data
    decreases |data| - i, 0
  {
    var b := data[i];
    var dict' := dict[current + [b] := next];
    var codes' := codes + [dict[current]];
    assert EncodeFrom(data, i, dict, next, current, codes) == EncodeFrom(data, i + 1, dict', next + 1, [b], codes');
    TracksEmitGrow(data, i, dict, next, current, codes, ps);
    phrases := EncodeFromValid(data, i + 1, dict', next + 1, [b], codes', ps + [current]);
  }

  /** The step of EncodeFromValid where the match cannot be extended and the dictionary is full. */
  lemma {:induction false} EncodeFromFull(data: seq<Byte>, i: nat, dict: map<seq<Byte>, nat>, next: nat,
                                          current: seq<Byte>, codes: seq<nat>, ps: seq<seq<Byte>>)
    returns (phrases: seq<seq<Byte>>)
    requires Ready(dict, current)
    requires Tracks(data, i, dict, next, current, codes, ps)
    requires i < |data| && current + [data[i]] !in dict && next >= MaxCodes
    ensures ValidEncoding(EncodeFrom(data, i, dict, next, current, codes), phrases)
    ensures Concat(phrases) == data
    decreases |data| - i, 0
  {
    var b := data[i];
    var codes' := codes + [dict[current]];
    assert EncodeFrom(data, i, dict, next, current, codes) == EncodeFrom(data, i + 1, dict, next, [b], codes');
    TracksEmitFull(data, i, dict, next, current, codes, ps);
    phrases := EncodeFromValid(data, i + 1, dict, next, [b], codes', ps + [current]);
  }

  /**
   * Every code the encoder emits names, in the table that exists at that point, a phrase,
   * and the phrases spell the input: the property the decoder's correctness rests on.
   */
  lemma EncodeCodesValid(data: seq<Byte>)
    ensures exists ps :: ValidEncoding(EncodeCodes(data), ps) && Concat(ps) == data
  {
    if data == [] {
      assert ValidEncoding([], []) && Concat([]) == data;
    } else {
      var current := [data[0]];
      var dict := LiteralDict();
      assert Entries([current]) == Literals();
      assert Agrees(dict, Literals()) by {
        forall s | s in dict
          ensures dict[s] < |Literals()| && Literals()[dict[s]] == s
        {
          assert s == [s[0]];
        }
      }
      assert Concat([]) + current == data[..1];
      var ps := EncodeFromValid(data, 1, dict, LiteralCount, current, [], []);
    }
  }
}
