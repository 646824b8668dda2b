/** Alignment arithmetic, padding and byte-order helpers (src/utility.js). */
module Utility {
  import opened Errors

  /** An element of a Uint8Array. */
  type byte = x: int | 0 <= x < 0x100

  /**
   * JavaScript's bitwise operators work on 32-bit signed integers. Lengths are
   * kept below this bound, where that conversion leaves a non-negative number as it is.
   */
  const Int32Limit: nat := 0x8000_0000

  /** A freshly allocated Uint8Array of length n: n zero bytes. */
  function Zeros(n: nat): (r: seq<byte>)
    ensures |r| == n && forall i | 0 <= i < n :: r[i] == 0
  {
    seq(n, _ => 0)
  }

  predicate IsPowerOfTwo(a: nat)
    decreases a
  {
    a == 1 || (a >= 2 && a % 2 == 0 && IsPowerOfTwo(a / 2))
  }

  /**
   * x & ~m for non-negative x and m: the bits of x with every bit that is set
   * in m cleared, computed bit by bit from the least significant one.
   */
  function AndNot(x: nat, m: nat): nat
    decreases x
  {
    if x == 0 then 0
    else 2 * AndNot(x / 2, m / 2) + (if x % 2 == 1 && m % 2 == 0 then 1 else 0)
  }

  /** align(n, alignment) = (n + alignment - 1) & ~(alignment - 1). */
  function Align(n: nat, alignment: nat): nat
    requires 1 <= alignment && n + alignment <= Int32Limit
  {
    AndNot(n + alignment - 1, alignment - 1)
  }

  lemma {:induction false} AndNotNothing(x: nat)
    ensures AndNot(x, 0) == x
    decreases x
  {
    if x != 0 {
      AndNotNothing(x / 2);
    }
  }

  lemma MulAtLeast(d: int, k: int)
    requires d > 0 && k >= 1
    ensures d * k >= d
    decreases k
  {
    if k > 1 {
      MulAtLeast(d, k - 1);
      assert d * k == d * (k - 1) + d;
    }
  }

  /** Quotient and remainder are the only ones with x == d * q + r and 0 <= r < d. */
  lemma DivModUnique(x: int, d: int, q: int, r: int)
    requires d > 0 && 0 <= r < d && x == d * q + r
    ensures x / d == q && x % d == r
  {
    var q', r' := x / d, x % d;
    assert x == d * q' + r';
    assert d * (q - q') == r' - r by {
      assert d * (q - q') == d * q - d * q';
    }
    if q - q' >= 1 {
      MulAtLeast(d, q - q');
    }
    if q' - q >= 1 {
      MulAtLeast(d, q' - q);
    }
  }

  lemma ModOfDouble(x: nat, b: nat)
    requires b >= 1
    ensures x % (2 * b) == 2 * ((x / 2) % b) + x % 2
  {
    var q, r := x / 2, x % 2;
    var t, s := q / b, q % b;
    assert q == b * t + s;
    assert x == (2 * b) * t + (2 * s + r);
    DivModUnique(x, 2 * b, t, 2 * s + r);
  }

  /** Clearing the bits of alignment - 1, for a power of two, rounds down to a multiple. */
  lemma {:induction false} AndNotLowBits(x: nat, a: nat)
    requires IsPowerOfTwo(a)
    ensures AndNot(x, a - 1) == x - x % a
    decreases a
  {
    if a == 1 {
      AndNotNothing(x);
    } else if x != 0 {
      var b := a / 2;
      assert a == 2 * b && IsPowerOfTwo(b) && b >= 1;
      assert (a - 1) / 2 == b - 1 && (a - 1) % 2 == 1;
      assert AndNot(x, a - 1) == 2 * AndNot(x / 2, b - 1);
      AndNotLowBits(x / 2, b);
      ModOfDouble(x, b);
      assert x == 2 * (x / 2) + x % 2;
    }
  }

  lemma MultiplesAreSpaced(i: int, j: int, a: nat)
    requires a >= 1 && a * i < a * j
    ensures a * i <= a * j - a
  {
    assert a * j - a * i == a * (j - i);
    if j - i >= 1 {
      MulAtLeast(a, j - i);
    } else if j - i < 0 {
      MulAtLeast(a, i - j);
    }
  }

  /** Rounding x down to a multiple of a gives no more than any multiple of a above x - a. */
  lemma RoundDownIsLeast(x: nat, a: nat, m: nat)
    requires a >= 1 && m % a == 0 && x - a < m
    ensures x - x % a <= m
  {
    var q := x / a;
    assert x == a * q + x % a;
    if m < a * q {
      assert m == a * (m / a) + m % a;
      MultiplesAreSpaced(m / a, q, a);
    }
  }

  lemma RoundDownIsMultiple(x: nat, a: nat)
    requires a >= 1
    ensures (x - x % a) % a == 0 && x - a < x - x % a <= x
  {
    var q := x / a;
    assert x == a * q + x % a;
    DivModUnique(a * q, a, q, 0);
  }

  /** For a power of two, align(n, a) is the least multiple of a that is at least n. */
  lemma AlignIsLeastMultiple(n: nat, a: nat)
    requires IsPowerOfTwo(a) && n + a <= Int32Limit
    ensures Align(n, a) % a == 0
    ensures n <= Align(n, a) < n + a
    ensures forall m: nat :: m % a == 0 && n <= m ==> Align(n, a) <= m
  {
    var x := n + a - 1;
    AndNotLowBits(x, a);
    assert Align(n, a) == x - x % a;
    RoundDownIsMultiple(x, a);
    forall m: nat | m % a == 0 && n <= m
      ensures Align(n, a) <= m
    {
      RoundDownIsLeast(x, a, m);
    }
  }

  lemma AlignOfAligned(n: nat, a: nat)
    requires IsPowerOfTwo(a) && n + a <= Int32Limit && n % a == 0
    ensures Align(n, a) == n
  {
    AlignIsLeastMultiple(n, a);
  }

  /**
   * addAlignementPadding(buffer, alignment): a new buffer holding buffer followed by
   * zeros up to the next multiple of alignment.
   */
  function AddAlignmentPadding(buffer: seq<byte>, alignment: nat): (r: seq<byte>)
    requires IsPowerOfTwo(alignment) && |buffer| + alignment <= Int32Limit
    ensures |r| == Align(|buffer|, alignment)
    ensures |r| % alignment == 0 && |buffer| <= |r| < |buffer| + alignment
  {
    AlignIsLeastMultiple(|buffer|, alignment);
    buffer + Zeros(Align(|buffer|, alignment) - |buffer|)
  }

  /** The padded buffer holds the buffer followed by zeros only. */
  lemma PaddingContents(buffer: seq<byte>, alignment: nat)
    requires IsPowerOfTwo(alignment) && |buffer| + alignment <= Int32Limit
    ensures var r := AddAlignmentPadding(buffer, alignment);
      r[..|buffer|] == buffer && forall i | |buffer| <= i < |r| :: r[i] == 0
  {
  }

  /** A buffer whose length is already aligned gets no padding. */
  lemma PaddingKeepsAligned(buffer: seq<byte>, alignment: nat)
    requires IsPowerOfTwo(alignment) && |buffer| + alignment <= Int32Limit
    requires |buffer| % alignment == 0
    ensures AddAlignmentPadding(buffer, alignment) == buffer
  {
    AlignOfAligned(|buffer|, alignment);
    var r := AddAlignmentPadding(buffer, alignment);
    assert r == r[..|buffer|];
  }

  /** Padding twice gives the same contents as padding once. */
  lemma PaddingIsIdempotent(buffer: seq<byte>, alignment: nat)
    requires IsPowerOfTwo(alignment) && |buffer| + 2 * alignment <= Int32Limit
    ensures var once := AddAlignmentPadding(buffer, alignment);
      |once| + alignment <= Int32Limit && AddAlignmentPadding(once, alignment) == once
  {
    PaddingKeepsAligned(AddAlignmentPadding(buffer, alignment), alignment);
  }

  /** verifyAlignment: fails when the buffer length is not a multiple of alignment. */
  function VerifyAlignment(buffer: seq<byte>, alignment: nat): (r: Outcome)
    ensures r.Pass? <==> alignment != 0 && |buffer| % alignment == 0
    ensures r.Fail? ==> r.error == BufferNotAligned(alignment)
  {
    // In JavaScript, length % 0 is NaN, which differs from 0: the check fails.
    if alignment == 0 || |buffer| % alignment != 0 then Fail(BufferNotAligned(alignment)) else Pass
  }

  // ---------------------------------------------------------------- byte order
  // JavaScript's bitwise operators first convert their operands to 32-bit
  // integers; the byte-order helpers are modelled on those 32-bit patterns.

  /** Byte i (0 is the least significant) of a 32-bit pattern. */
  function ByteOf(x: bv32, i: nat): bv32
    requires i < 4
  {
    if i == 0 then x & 0xff
    else if i == 1 then (x >> 8) & 0xff
    else if i == 2 then (x >> 16) & 0xff
    else (x >> 24) & 0xff
  }

  /** The signed 32-bit integer JavaScript yields for a pattern. */
  function Int32Of(b: bv32): int
  {
    if b < 0x8000_0000 then b as int else b as int - 0x1_0000_0000
  }

  /** htons: swaps the two low bytes of n and drops the rest. */
  function Htons(n: bv32): (r: bv32)
    ensures r < 0x1_0000
    ensures ByteOf(r, 0) == ByteOf(n, 1) && ByteOf(r, 1) == ByteOf(n, 0)
  {
    ((n & 0xff) << 8) | ((n >> 8) & 0xff)
  }

  /** htonl: reverses the four bytes of n. */
  function Htonl(n: bv32): (r: bv32)
    ensures ByteOf(r, 0) == ByteOf(n, 3) && ByteOf(r, 1) == ByteOf(n, 2)
    ensures ByteOf(r, 2) == ByteOf(n, 1) && ByteOf(r, 3) == ByteOf(n, 0)
  {
    // (n & 0xff0000) >> 8 shifts a non-negative int32, so the arithmetic shift
    // JavaScript performs equals the logical one; so does (n >> 24) & 0xff.
    ((n & 0xff) << 24) | ((n & 0xff00) << 8) | ((n & 0xff0000) >> 8) | ((n >> 24) & 0xff)
  }

  lemma HtonsTwice(n: bv32)
    ensures Htons(Htons(n)) == n & 0xffff
  {
  }

  lemma HtonlTwice(n: bv32)
    ensures Htonl(Htonl(n)) == n
  {
  }

  /** A low byte with its top bit set lands in the sign bit: htonl can return a negative number. */
  lemma HtonlCanBeNegative()
    ensures Int32Of(Htonl(0x80)) == -0x8000_0000
  {
  }

  /** ntohs is htons; it undoes htons on the low 16 bits, so swapping twice gives back every 16-bit value. */
  function Ntohs(n: bv32): (r: bv32)
    ensures r < 0x1_0000
    ensures Htons(r) == n & 0xffff
  {
    HtonsTwice(n);
    Htons(n)
  }

  /** ntohl is htonl; it undoes htonl, so reversing twice gives back every 32-bit pattern. */
  function Ntohl(n: bv32): (r: bv32)
    ensures Htonl(r) == n
  {
    HtonlTwice(n);
    Htonl(n)
  }
}
