/** The demo class `BitHacks`: its own copy of the next-bit function, the
    sample inputs it prints, and the loop that builds a consumer mask by
    repeatedly OR-ing in the next bit. Printing is left out; the values that
    would be printed are returned. */
module BitHacks {
  import opened JavaLong
  import ConsumerMask

  /** `BitHacks.findNextWithDifferentLeftmostBit`, written out again exactly
      as the demo class writes it. */
  function FindNextWithDifferentLeftmostBit(v1: bv64): bv64
  {
    if v1 == 0 then 1
    else
      var leftmostBitPos := 63 - NumberOfLeadingZeros(v1);
      var mask := ShiftLeft(1, leftmostBitPos + 1) - 1;
      (v1 & !mask) | ShiftLeft(1, leftmostBitPos + 1)
  }

  /** The demo copy and the pool's function agree on every input. */
  lemma SameAsPoolVersion(v1: bv64)
    ensures FindNextWithDifferentLeftmostBit(v1) == ConsumerMask.FindNextWithDifferentLeftmostBit(v1)
  {
  }

  /** The six sample inputs of `main` and what the function returns for
      them: 0b1010 -> 0b10000, 0b1000 -> 0b10000, 0b0111 -> 0b1000, 0 -> 1,
      255 -> 256, and `Long.MAX_VALUE` -> `Long.MIN_VALUE`. */
  lemma SampleInputs()
    ensures FindNextWithDifferentLeftmostBit(0xA) == 0x10
    ensures FindNextWithDifferentLeftmostBit(0x8) == 0x10
    ensures FindNextWithDifferentLeftmostBit(0x7) == 0x8
    ensures FindNextWithDifferentLeftmostBit(0) == 1
    ensures FindNextWithDifferentLeftmostBit(0xFF) == 0x100
    ensures FindNextWithDifferentLeftmostBit(0x7FFF_FFFF_FFFF_FFFF) == 0x8000_0000_0000_0000
  {
    SampleAbove(0xA, 3);
    SampleAbove(0x8, 3);
    SampleAbove(0x7, 2);
    SampleAbove(0xFF, 7);
    SampleAbove(0x7FFF_FFFF_FFFF_FFFF, 62);
  }

  lemma SampleAbove(v: bv64, p: bv64)
    requires p < 63 && IsHighestBit(v, p)
    ensures FindNextWithDifferentLeftmostBit(v) == (1 as bv64) << (p + 1)
  {
    SameAsPoolVersion(v);
    ConsumerMask.NextAbovePositive(v, p);
  }

  /** One round of the mask-building loop of `main`: compute the next bit
      and OR it into the mask. Starting from the mask 2^i - 1 the round
      prints bit i and leaves the mask 2^(i+1) - 1. */
  method Round(consumerMask: bv64, i: bv64) returns (nextConsumerBit: bv64, updated: bv64)
    requires i < 64 && consumerMask == ConsumerMask.LowMask(i)
    ensures nextConsumerBit == (1 as bv64) << i
    ensures updated == ConsumerMask.LowMask(i + 1)
  {
    ConsumerMask.NextOfLowMask(i);
    SameAsPoolVersion(consumerMask);
    nextConsumerBit := FindNextWithDifferentLeftmostBit(consumerMask);
    updated := consumerMask | nextConsumerBit;
  }

  /** The bits the first k rounds print, in order: 1, 2, 4, ... */
  function PrintedBits(k: bv64): seq<bv64>
    requires k <= 64
    decreases k
  {
    if k == 0 then [] else PrintedBits(k - 1) + [(1 as bv64) << (k - 1)]
  }

  /** The mask-building loop of `main`: five rounds from the empty mask.
      Round i prints bit i, the mask after k rounds is 2^k - 1, and the final
      mask 31 is the pool's mask after five consumer registrations. The
      source's `int` loop counter only ever holds 0 to 5. */
  method MaskDemo() returns (consumerMask: bv64, printed: seq<bv64>)
    ensures consumerMask == 31 == ConsumerMask.LowMask(5)
    ensures consumerMask == ConsumerMask.MaskAfter(5)
    ensures printed == [1, 2, 4, 8, 16]
  {
    consumerMask := 0;
    printed := [];
    var i: bv64 := 0;
    while i < 5
      invariant i <= 5
      invariant consumerMask == ConsumerMask.LowMask(i)
      invariant printed == PrintedBits(i)
    {
      var nextConsumerBit;
      nextConsumerBit, consumerMask := Round(consumerMask, i);
      printed := printed + [nextConsumerBit];
      i := i + 1;
    }
    assert PrintedBits(5) == [1, 2, 4, 8, 16];
    ConsumerMask.MaskAfterIsLowMask(5);
  }
}
