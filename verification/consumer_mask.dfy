/** The pool's consumer-mask arithmetic: choosing the next consumer bit,
    registering a consumer, and the access test a consumer token performs.
    Every value is a Java `long`, held as its `bv64` bit pattern. */
module ConsumerMask {
  import opened JavaLong

  /** `ArcPool.findNextWithDifferentLeftmostBit`, step by step as the source
      writes it: zero maps to 1; otherwise the bits up to the highest set bit
      are cleared and the bit one above it is set, both through a Java shift
      whose count is `leftmostBitPos + 1`. */
  function FindNextWithDifferentLeftmostBit(v1: bv64): bv64
  {
    if v1 == 0 then 1
    else
      var leftmostBitPos := 63 - NumberOfLeadingZeros(v1);
      ClearUpToAndSetAbove(v1, leftmostBitPos)
  }

  /** `(v & ~mask) | (1L << (pos + 1))` with `mask = (1L << (pos + 1)) - 1`. */
  function ClearUpToAndSetAbove(v: bv64, pos: bv64): bv64
  {
    var mask := ShiftLeft(1, pos + 1) - 1;
    (v & !mask) | ShiftLeft(1, pos + 1)
  }

  /** All bits below position k set, none at or above it; k == 64 gives all
      ones. */
  function LowMask(k: bv64): bv64
    requires k <= 64
  {
    ((1 as bv64) << k) - 1
  }

  /** On a nonzero input the function works from the true highest set bit. */
  lemma NextAtHighestBit(v: bv64, p: bv64)
    requires IsHighestBit(v, p)
    ensures FindNextWithDifferentLeftmostBit(v) == ClearUpToAndSetAbove(v, p)
  {
    HighestBitNonzero(v, p);
    LeadingZerosLocateHighestBit(v, p);
  }

  lemma ClearBelowTopBit(v: bv64, p: bv64)
    requires p < 63 && IsHighestBit(v, p)
    ensures ClearUpToAndSetAbove(v, p) == (1 as bv64) << (p + 1)
    ensures v & !LowMask(p + 1) == 0
    ensures ((1 as bv64) << (p + 1)) & v == 0
    ensures v < (1 as bv64) << (p + 1)
    ensures IsHighestBit(v | ((1 as bv64) << (p + 1)), p + 1)
  {
  }

  lemma ClearBelowSignBit(v: bv64)
    requires IsHighestBit(v, 63)
    ensures ClearUpToAndSetAbove(v, 63) == v | 1
  {
  }

  /** For a nonzero value whose bit 63 is clear (a positive `long`) with
      highest set bit p, the mask `(1 << (p + 1)) - 1` covers every set bit,
      and the result is the single bit p + 1: disjoint from the input,
      numerically greater than it (unsigned), and the new highest bit of the
      union. */
  lemma NextAbovePositive(v: bv64, p: bv64)
    requires p < 63 && IsHighestBit(v, p)
    ensures FindNextWithDifferentLeftmostBit(v) == (1 as bv64) << (p + 1)
    ensures v & !LowMask(p + 1) == 0
    ensures FindNextWithDifferentLeftmostBit(v) & v == 0
    ensures v < FindNextWithDifferentLeftmostBit(v)
    ensures IsHighestBit(v | FindNextWithDifferentLeftmostBit(v), p + 1)
  {
    NextAtHighestBit(v, p);
    ClearBelowTopBit(v, p);
  }

  /** For a negative `long` (bit 63 set) the shift count 64 wraps to 0, the
      mask becomes 0, and the result is just the input with bit 0 set. */
  lemma NextOfNegative(v: bv64)
    requires v >> 63 == 1
    ensures FindNextWithDifferentLeftmostBit(v) == v | 1
  {
    NextAtHighestBit(v, 63);
    ClearBelowSignBit(v);
  }

  /** The result is never zero, and a non-negative input shares no bit with
      it. (A negative input gains a bit only when it is even; see
      `NegativeEvenGainsBitZero`.) */
  lemma NextAddsABit(v: bv64)
    ensures FindNextWithDifferentLeftmostBit(v) != 0
    ensures v >> 63 == 0 ==> FindNextWithDifferentLeftmostBit(v) & v == 0
  {
    if v != 0 {
      var p := HighestBitExists(v);
      if p < 63 {
        NextAbovePositive(v, p);
      } else {
        NextOfNegative(v);
      }
    }
  }

  /** A negative even input gains exactly bit 0, the one bit it lacked
      among those the result keeps. */
  lemma NegativeEvenGainsBitZero(v: bv64)
    requires v >> 63 == 1 && v & 1 == 0
    ensures FindNextWithDifferentLeftmostBit(v) & !v == 1
  {
    NextOfNegative(v);
  }

  /** Below the top, the low mask with k bits has highest bit k - 1, so the
      next bit is bit k and the mask grows by exactly that bit. */
  lemma NextOfLowMask(k: bv64)
    requires k < 64
    ensures FindNextWithDifferentLeftmostBit(LowMask(k)) == (1 as bv64) << k
    ensures LowMask(k) | ((1 as bv64) << k) == LowMask(k + 1)
  {
    if k != 0 {
      assert IsHighestBit(LowMask(k), k - 1);
      NextAbovePositive(LowMask(k), k - 1);
    }
  }

  /** What `registerConsumer` computes: the new pool mask and the token. */
  datatype Registration = Registration(mask: bv64, token: bv64)

  /** `ArcPool.registerConsumer` with its CAS loop taken as one atomic step.
      The next bit is OR'd into the mask, but the token is
      `1L << consumerBitIndex`, where consumerBitIndex is the bit's VALUE, not
      its position; Java keeps only the low six bits of that shift count. */
  function RegisterConsumer(mask: bv64): Registration
  {
    var consumerBitIndex := FindNextWithDifferentLeftmostBit(mask);
    Registration(mask | consumerBitIndex, ShiftLeft(1, consumerBitIndex))
  }

  /** Registering never drops a bit, and the mask is never empty afterwards. */
  lemma RegisterKeepsOldBits(mask: bv64)
    ensures mask & RegisterConsumer(mask).mask == mask
    ensures RegisterConsumer(mask).mask != 0
  {
    NextAddsABit(mask);
  }

  /** While bit 63 is clear, registering sets the bit just above the highest
      bit already registered, and hands out `1L << (that bit's value)`. */
  lemma RegisterAbovePositive(mask: bv64, p: bv64)
    requires p < 63 && IsHighestBit(mask, p)
    ensures RegisterConsumer(mask) ==
      Registration(mask | ((1 as bv64) << (p + 1)), ShiftLeft(1, (1 as bv64) << (p + 1)))
  {
    NextAbovePositive(mask, p);
  }

  /** Setting the bit above the highest one adds exactly that one bit, which
      becomes the new highest bit. */
  lemma SetBitAboveHighest(mask: bv64, p: bv64)
    requires p < 63 && IsHighestBit(mask, p)
    ensures (mask | ((1 as bv64) << (p + 1))) ^ mask == (1 as bv64) << (p + 1)
    ensures IsHighestBit(mask | ((1 as bv64) << (p + 1)), p + 1)
  {
  }

  /** The first registration on an empty mask sets bit 0 and hands out the
      token 2, i.e. bit 1. */
  lemma RegisterOnEmptyMask()
    ensures RegisterConsumer(0) == Registration(1, 2)
  {
  }

  /** Registration k (counting from 0) on a pool that has registered k
      consumers: the mask gains bit k and the token is `1 << (2^k & 63)`. */
  lemma RegisterOnLowMask(k: bv64)
    requires k < 64
    ensures RegisterConsumer(LowMask(k)).mask == LowMask(k + 1)
    ensures RegisterConsumer(LowMask(k)).token == ShiftLeft(1, (1 as bv64) << k)
  {
    NextOfLowMask(k);
  }

  /** The pool mask after k registrations starting from an empty mask. */
  function MaskAfter(k: bv64): bv64
    decreases k
  {
    if k == 0 then 0 else RegisterConsumer(MaskAfter(k - 1)).mask
  }

  /** After k registrations (k up to 64) the mask is `2^k - 1`: the bits are
      handed out in increasing order 1, 2, 4, ... and never reused. */
  lemma {:induction false} MaskAfterIsLowMask(k: bv64)
    requires k <= 64
    ensures MaskAfter(k) == LowMask(k)
    decreases k
  {
    if k != 0 {
      MaskAfterIsLowMask(k - 1);
      RegisterOnLowMask(k - 1);
    }
  }

  lemma TokenOfBit(k: bv64)
    requires k < 64
    ensures k < 6 ==> ShiftLeft(1, (1 as bv64) << k) == (1 as bv64) << ((1 as bv64) << k)
    ensures 6 <= k ==> ShiftLeft(1, (1 as bv64) << k) == 1
    ensures ShiftLeft(1, (1 as bv64) << k) != (1 as bv64) << k
  {
  }

  /** The token of registration k is not the bit that registration added to
      the mask: the tokens run 2, 4, 16, 256, 2^16, 2^32 and then 1 for every
      later registration up to the 64th. */
  lemma TokenSchedule(k: bv64)
    requires k < 64
    ensures k < 6 ==> RegisterConsumer(MaskAfter(k)).token == (1 as bv64) << ((1 as bv64) << k)
    ensures 6 <= k ==> RegisterConsumer(MaskAfter(k)).token == 1
    ensures RegisterConsumer(MaskAfter(k)).token != (1 as bv64) << k
  {
    MaskAfterIsLowMask(k);
    RegisterOnLowMask(k);
    TokenOfBit(k);
  }

  /** A 65th registration finds every bit taken: the mask stays all ones and
      the token is bit 63 (`Long.MIN_VALUE`). */
  lemma RegisterOnFullMask()
    ensures RegisterConsumer(0xFFFF_FFFF_FFFF_FFFF) == Registration(0xFFFF_FFFF_FFFF_FFFF, 0x8000_0000_0000_0000)
  {
    NextOfNegative(0xFFFF_FFFF_FFFF_FFFF);
  }

  /** Every bit set in `bits` is also set in `mask`. */
  predicate BitsWithin(bits: bv64, mask: bv64)
  {
    bits & mask == bits
  }

  /** `ConsumerToken.checkAccess` lets a token through exactly when it shares
      a bit with the mask snapshot taken when the Arc was first built. */
  predicate Grants(snapshot: bv64, token: bv64)
  {
    snapshot & token != 0
  }

  /** Because of the token shift, the first consumer's token (2) is refused by
      an Arc built right after that consumer registered (snapshot 1), while
      every token from the seventh registration on (1) is accepted by any Arc
      built after the first registration, including Arcs built before that
      later consumer existed. */
  lemma TokenAccessQuirk(k: bv64)
    requires 6 <= k < 64
    ensures !Grants(MaskAfter(1), RegisterConsumer(MaskAfter(0)).token)
    ensures Grants(MaskAfter(1), RegisterConsumer(MaskAfter(k)).token)
  {
    TokenSchedule(k);
  }

  /** The low mask with m bits contains bit j exactly when j < m. */
  lemma LowMaskHasBit(m: bv64, j: bv64)
    requires m <= 64 && j < 64
    ensures LowMask(m) & ((1 as bv64) << j) != 0 <==> j < m
  {
  }

  /** Which snapshots let the token of one of the first six consumers
      (registration k < 6) through: only those of Arcs built after more than
      2^k registrations, because that token is bit 2^k rather than bit k. */
  lemma EarlyTokenGrantedAfter(k: bv64, m: bv64)
    requires k < 6 && m <= 64
    ensures Grants(MaskAfter(m), RegisterConsumer(MaskAfter(k)).token) <==> (1 as bv64) << k < m
  {
    TokenSchedule(k);
    MaskAfterIsLowMask(m);
    LowMaskHasBit(m, (1 as bv64) << k);
  }

  /** The token of every later consumer (6 <= k < 64) is bit 0, which every
      snapshot taken after at least one registration contains. */
  lemma LateTokenGrantedAfter(k: bv64, m: bv64)
    requires 6 <= k < 64 && m <= 64
    ensures Grants(MaskAfter(m), RegisterConsumer(MaskAfter(k)).token) <==> 0 < m
  {
    TokenSchedule(k);
    MaskAfterIsLowMask(m);
    LowMaskHasBit(m, 0);
  }

  /** A stale snapshot on its own refuses access. The token of every consumer
      from the seventh on is bit 0, so an Arc built before any registration
      (snapshot 0) refuses it, while an Arc built after that consumer
      registered accepts it: the refusal comes from the snapshot's age, not
      from the token shift. */
  lemma StaleSnapshotRefusesLateToken(k: bv64)
    requires 6 <= k < 64
    ensures RegisterConsumer(MaskAfter(k)).token == 1
    ensures !Grants(MaskAfter(0), RegisterConsumer(MaskAfter(k)).token)
    ensures Grants(MaskAfter(k + 1), RegisterConsumer(MaskAfter(k)).token)
  {
    TokenSchedule(k);
    LateTokenGrantedAfter(k, k + 1);
  }
}
