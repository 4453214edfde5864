/**
 * The utility methods of `MslUtils`: a byte-array comparison that always visits every
 * index, the power-of-two test on a Java `long`, and the loop that draws random longs
 * until one lies between zero and the maximum long value.
 */
module MslUtils {
  import opened Bits
  import opened Results

  // ---------------------------------------------------------------------------
  // Java integers

  const TwoTo63: int := 0x8000_0000_0000_0000
  const TwoTo64: int := 0x1_0000_0000_0000_0000

  /** A Java `long`: a 64-bit two's complement integer. */
  type Int64 = x: int | -TwoTo63 <= x < TwoTo63

  /** The 64-bit pattern of a long, read as an unsigned number. */
  function ToUnsigned(x: Int64): (u: nat)
    ensures u < TwoTo64
    ensures x >= 0 ==> u == x
  {
    if x < 0 then x + TwoTo64 else x
  }

  /** The long whose 64-bit pattern is u. */
  function FromUnsigned(u: nat): (x: Int64)
    requires u < TwoTo64
    ensures ToUnsigned(x) == u
  {
    if u < TwoTo63 then u else u - TwoTo64
  }

  /** Bitwise AND of two non-negative numbers, one binary digit at a time. */
  function AndBits(x: nat, y: nat): (r: nat)
    ensures r <= x && r <= y
  {
    if x == 0 || y == 0 then 0
    else 2 * AndBits(x / 2, y / 2) + (if x % 2 == 1 && y % 2 == 1 then 1 else 0)
  }

  /** Java's `a & b` on longs: the AND of the two 64-bit patterns. */
  function And64(a: Int64, b: Int64): (r: Int64)
    ensures b >= 0 ==> 0 <= r <= b
    ensures a >= 0 ==> 0 <= r <= a
  {
    FromUnsigned(AndBits(ToUnsigned(a), ToUnsigned(b)))
  }

  lemma {:induction false} AndBitsSelf(x: nat)
    ensures AndBits(x, x) == x
  {
    if x > 0 {
      AndBitsSelf(x / 2);
    }
  }

  // ---------------------------------------------------------------------------
  // safeEquals

  /** A Java `byte` as its 8-bit pattern. */
  type JavaByte = bv8

  /** The promotion of a byte to `int` that `^` applies: sign extension to 32 bits. */
  function Widen(x: JavaByte): (r: bv32)
    ensures (r & 0xFF) as bv8 == x
  {
    if x < 0x80 then x as bv32 else (x as bv32) | 0xFFFF_FF00
  }

  lemma WidenXor(x: JavaByte, y: JavaByte)
    ensures Widen(x) ^ Widen(y) == 0 <==> x == y
  {
    if Widen(x) ^ Widen(y) == 0 {
      assert Widen(x) == Widen(y);
    }
  }

  /**
   * `safeEquals(a, b)`: false when the lengths differ; otherwise the XOR of every pair of
   * bytes is ORed into an accumulator with no early exit, and the arrays are equal when
   * the accumulator stays zero.  `visited` counts the loop's iterations.
   */
  method SafeEquals(a: array<JavaByte>, b: array<JavaByte>) returns (equal: bool, ghost visited: nat)
    ensures equal <==> a[..] == b[..]
    ensures a.Length != b.Length ==> !equal && visited == 0
    ensures a.Length == b.Length ==> visited == a.Length
  {
    visited := 0;
    if a.Length != b.Length {
      return false, visited;
    }
    var result: bv32 := 0;
    for i := 0 to a.Length
      invariant result == 0 <==> a[..i] == b[..i]
      invariant visited == i
    {
      WidenXor(a[i], b[i]);
      assert a[..i + 1] == a[..i] + [a[i]] && b[..i + 1] == b[..i] + [b[i]];
      result := result | (Widen(a[i]) ^ Widen(b[i]));
      visited := visited + 1;
    }
    assert a[..] == a[..a.Length] && b[..] == b[..b.Length];
    equal := result == 0;
  }

  // ---------------------------------------------------------------------------
  // isPowerOf2

  /** `isPowerOf2(n)`: false for a negative number, true for zero, else whether n & (n - 1) is zero. */
  function IsPowerOf2(n: Int64): (r: bool)
    ensures n < 0 ==> !r
    ensures n == 0 ==> r
  {
    if n < 0 then false
    else if n == 0 then true
    else And64(n, n - 1) == 0
  }

  /** A positive n has no bit in common with n - 1 exactly when n is a power of two. */
  lemma {:induction false} AndPredecessor(n: nat)
    requires n > 0
    ensures AndBits(n, n - 1) == 0 <==> exists k: nat :: n == Pow2(k)
  {
    if n == 1 {
      assert n == Pow2(0);
    } else if n % 2 == 1 {
      AndOdd(n);
      OddNotPower(n);
    } else {
      AndEven(n);
      AndPredecessor(n / 2);
      EvenPower(n);
    }
  }

  /** An odd n > 1 shares all but its lowest bit with n - 1. */
  lemma AndOdd(n: nat)
    requires n > 1 && n % 2 == 1
    ensures AndBits(n, n - 1) != 0
  {
    assert (n - 1) / 2 == n / 2 && (n - 1) % 2 == 0;
    AndBitsSelf(n / 2);
    assert AndBits(n, n - 1) == 2 * AndBits(n / 2, n / 2);
  }

  /** For an even n, the lowest bit of n & (n - 1) is zero and the rest is (n / 2) & (n / 2 - 1). */
  lemma AndEven(n: nat)
    requires n >= 2 && n % 2 == 0
    ensures AndBits(n, n - 1) == 2 * AndBits(n / 2, n / 2 - 1)
  {
    assert (n - 1) / 2 == n / 2 - 1 && (n - 1) % 2 == 1;
  }

  /** Every power of two above 1 is even. */
  lemma OddNotPower(n: nat)
    requires n > 1 && n % 2 == 1
    ensures forall k: nat :: n != Pow2(k)
  {
    forall k: nat ensures n != Pow2(k) {
      if k > 0 {
        assert Pow2(k) == 2 * Pow2(k - 1);
      }
    }
  }

  /** An even n is a power of two exactly when n / 2 is. */
  lemma EvenPower(n: nat)
    requires n >= 2 && n % 2 == 0
    ensures (exists k: nat :: n == Pow2(k)) <==> exists k: nat :: n / 2 == Pow2(k)
  {
    if exists k: nat :: n == Pow2(k) {
      var k: nat :| n == Pow2(k);
      assert k > 0;
      assert n / 2 == Pow2(k - 1);
      assert exists j: nat :: n / 2 == Pow2(j);
    }
    if exists k: nat :: n / 2 == Pow2(k) {
      var k: nat :| n / 2 == Pow2(k);
      assert n == Pow2(k + 1);
      assert exists j: nat :: n == Pow2(j);
    }
  }

  /** `isPowerOf2(n)` holds exactly for zero and the positive powers of two (2^0 = 1 included). */
  lemma PowerOf2Exactly(n: Int64)
    ensures IsPowerOf2(n) <==> n == 0 || (n > 0 && exists k: nat :: n == Pow2(k))
  {
    if n > 0 {
      AndPredecessor(n);
    }
  }

  // ---------------------------------------------------------------------------
  // getRandomLong

  /**
   * One pass of the loop body: the draw, masked with maxValue - 1 when maxValue is a power
   * of two.  With a positive power of two as the maximum, masking alone lands every draw
   * in [0, maxValue).
   */
  function Masked(maxValue: Int64, draw: Int64): (n: Int64)
    ensures maxValue > 0 && IsPowerOf2(maxValue) ==> 0 <= n < maxValue
    ensures !IsPowerOf2(maxValue) ==> n == draw
  {
    if IsPowerOf2(maxValue) then And64(draw, maxValue - 1) else draw
  }

  /** The loop's exit condition: the value lies in [0, maxValue]. */
  predicate Accepted(maxValue: Int64, n: Int64)
  {
    0 <= n <= maxValue
  }

  /**
   * `getRandomLong`: the random source is the sequence of longs it would return.  Draws are
   * taken until one, masked when the maximum is a power of two, lies in [0, maxValue];
   * `used` is the number taken.  None means the supplied draws ran out first.
   */
  method GetRandomLong(maxValue: Int64, draws: seq<Int64>) returns (r: Option<Int64>, used: nat)
    ensures used <= |draws|
    ensures forall j :: 0 <= j < used - 1 ==> !Accepted(maxValue, Masked(maxValue, draws[j]))
    ensures r.Some? ==> used >= 1 && r.value == Masked(maxValue, draws[used - 1])
    ensures r.Some? ==> Accepted(maxValue, r.value)
    ensures r.None? ==> used == |draws| && forall j :: 0 <= j < |draws| ==> !Accepted(maxValue, Masked(maxValue, draws[j]))
    ensures maxValue > 0 && IsPowerOf2(maxValue) && |draws| > 0 ==> r.Some? && used == 1
  {
    var pow2 := IsPowerOf2(maxValue);
    used := 0;
    while used < |draws|
      invariant used <= |draws|
      invariant forall j :: 0 <= j < used ==> !Accepted(maxValue, Masked(maxValue, draws[j]))
      invariant maxValue > 0 && pow2 ==> used == 0
    {
      var n := draws[used];
      if pow2 {
        n := And64(n, maxValue - 1);
      }
      used := used + 1;
      if 0 <= n <= maxValue {
        return Some(n), used;
      }
    }
    r := None;
  }
}
