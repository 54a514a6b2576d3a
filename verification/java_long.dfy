/** The pieces of Java's 64-bit `long` arithmetic that the consumer-mask code
    relies on, written out over `bv64` (a `long` is its two's complement bit
    pattern). Bit positions and shift counts are small Java `int`s in the
    source; they are held here as `bv64` as well, because only their low six
    bits ever reach a shift. */
module JavaLong {

  /** Java `x << n` for a `long` x: the JVM uses only the low six bits of the
      shift count (`n & 0x3f`), whether the count is an `int` or a `long`, so
      a count of 64 shifts by nothing at all. */
  function ShiftLeft(x: bv64, n: bv64): bv64
  {
    x << (n & 63)
  }

  /** p is the position of the highest set bit of v: bit p is set and every
      bit above it is clear. */
  predicate IsHighestBit(v: bv64, p: bv64)
  {
    p < 64 && v >> p == 1
  }

  /** The number of significant bits of v: zero for zero, otherwise one more
      than the position of its highest set bit (see `BitLengthOfHighest`). */
  function BitLength(v: bv64): bv64
    decreases v
  {
    if v == 0 then 0 else 1 + BitLength(v >> 1)
  }

  /** `Long.numberOfLeadingZeros(v)`: the number of clear bits above the
      highest set bit, and 64 for zero. */
  function NumberOfLeadingZeros(v: bv64): bv64
  {
    64 - BitLength(v)
  }

  lemma HighestBitNonzero(v: bv64, p: bv64)
    requires IsHighestBit(v, p)
    ensures v != 0
  {
  }

  lemma HighestBitOfHalf(v: bv64, p: bv64)
    requires IsHighestBit(v, p) && p != 0
    ensures v != 0 && IsHighestBit(v >> 1, p - 1)
  {
  }

  lemma HighestBitFromHalf(v: bv64, q: bv64)
    requires v >> 1 != 0 && IsHighestBit(v >> 1, q)
    ensures IsHighestBit(v, q + 1)
  {
  }

  lemma HighestBitZero(v: bv64)
    ensures IsHighestBit(v, 0) <==> v == 1
  {
  }

  /** Every nonzero value has a highest set bit. */
  lemma {:induction false} HighestBitExists(v: bv64) returns (p: bv64)
    requires v != 0
    ensures IsHighestBit(v, p)
    decreases v
  {
    if v >> 1 == 0 {
      HighestBitZero(v);
      p := 0;
    } else {
      var q := HighestBitExists(v >> 1);
      HighestBitFromHalf(v, q);
      p := q + 1;
    }
  }

  /** The bit length is one more than the position of the highest set bit. */
  lemma {:induction false} BitLengthOfHighest(v: bv64, p: bv64)
    requires IsHighestBit(v, p)
    ensures BitLength(v) == p + 1
    decreases p
  {
    if p == 0 {
      HighestBitZero(v);
    } else {
      HighestBitOfHalf(v, p);
      BitLengthOfHighest(v >> 1, p - 1);
    }
  }

  /** `63 - Long.numberOfLeadingZeros(v)`, the expression the source uses, is
      the position of the highest set bit of every nonzero v. */
  lemma LeadingZerosLocateHighestBit(v: bv64, p: bv64)
    requires IsHighestBit(v, p)
    ensures 63 - NumberOfLeadingZeros(v) == p
  {
    BitLengthOfHighest(v, p);
  }

  /** `Long.numberOfLeadingZeros(0) == 64`. */
  lemma LeadingZerosOfZero()
    ensures NumberOfLeadingZeros(0) == 64
  {
  }
}
