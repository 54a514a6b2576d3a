# Arc: reference-counted pooled wrappers, modelled in Dafny

`Arc` is a lock-free, garbage-free reference-counting container. An `ArcPool`
hands out `Arc` wrappers around payloads produced by a factory. Callers
`copy` an Arc to take another reference and `release` (or `close`) it to drop
one. The release that takes the count from 1 to 0 returns the Arc to its pool:

- below the pool's capacity, the Arc's node is pushed back onto a lock-free
  LIFO free list, payload included, for the next `acquire`;
- otherwise the payload is cleared and the node is abandoned.

A pool can also register up to 64 consumers in a 64-bit mask. A
`ConsumerToken` checks an Arc against the mask snapshot the Arc took when it
was first built.

The model is sequential: each compare-and-swap retry loop is one atomic step.
The state is immutable data and each operation is a pure function. An
exception is a `Failure` of the `Result` the function returns.

| file | module | models |
|---|---|---|
| `results.dfy` | `Results` | `Option` and the success-or-exception `Result` |
| `java_long.dfy` | `JavaLong` | Java `long` shifts (count masked with `& 63`) and `Long.numberOfLeadingZeros` over `bv64` |
| `consumer_mask.dfy` | `ConsumerMask` | `findNextWithDifferentLeftmostBit`, the mask/token arithmetic of `registerConsumer`, and the `checkAccess` test |
| `arc_cell.dfy` | `ArcCell` | one `Arc`: `get`, `copy`, `initializeReference` and the count half of `release` |
| `arc_pool.dfy` | `ArcPool` | the pool (free list, size, capacity, consumer mask, every Arc built), `acquire`, `returnObject`, `pushNode`, `popNode`, `release`/`close`, `registerConsumer`, `checkAccess`, and the named-pool registry |
| `pool_properties.dfy` | `PoolProperties` | the pool invariant and what each operation does to it, LIFO reuse, the over-capacity drop, the stale snapshot, and concrete runs |
| `bit_hacks.dfy` | `BitHacks` | the demo class's copy of the bit function, its sample inputs and its mask-building loop |

Representation choices:

- A node and its Arc are created together and stay paired for life. Both are
  therefore named by one `NodeId`, and the pool maps each id to its Arc's state.
- The free list is a `seq<NodeId>` with the head first; `Node.next` is the
  order of that sequence.
- The factory is a counter: its n-th call yields `Payload(n)`. This makes
  "no factory call happened" and "the payload was kept" provable.
- An Arc cut loose by an over-capacity return stays in the map, in the set
  `dropped`, with no payload. A caller may still hold it, and every `get` or
  `copy` on it throws.
- Every `long` is its `bv64` bit pattern. The reference count is an `int`
  restricted to the Java `int` range.

Three behaviours of the code are easy to misread:

- The token returned by `registerConsumer` is `1L << consumerBitIndex`.
  `consumerBitIndex` is the bit's value, not its position, and Java keeps
  only the low six bits of the shift count. The tokens are therefore 2, 4,
  16, 256, 2^16, 2^32 and then 1, not the registered bits 1, 2, 4, …
  (`ConsumerMask.TokenSchedule`).
- A 65th registration is deterministic. With bit 63 set, the shift count 64
  wraps to 0, so the mask stays all ones and the token is bit 63
  (`ConsumerMask.RegisterOnFullMask`).
- Any `int` capacity is accepted, including 0 and negative ones. A
  non-positive capacity keeps the free list empty.

## Model

| member | source | states |
|---|---|---|
| `JavaLong.NumberOfLeadingZeros` | src/main/java/org/arc/Arc.java:126 | `Long.numberOfLeadingZeros`, defined as 64 minus the bit length; its meaning, 64 for zero and `63 - p` for highest bit p, is stated by `JavaLong.LeadingZerosOfZero` and `JavaLong.LeadingZerosLocateHighestBit` |
| `JavaLong.ShiftLeft` | src/main/java/org/arc/Arc.java:129-132 | Java's `long` shift, which keeps only the low six bits of the count (also used at line 205); what this does to the token is stated by `ConsumerMask.TokenSchedule` and `ConsumerMask.RegisterOnFullMask` |
| `JavaLong.LeadingZerosLocateHighestBit` | src/main/java/org/arc/Arc.java:126 | `63 - Long.numberOfLeadingZeros(v)` is the position of the highest set bit of every nonzero `v` |
| `JavaLong.HighestBitExists` | src/main/java/org/arc/Arc.java:123-126 | every nonzero `long` has a highest set bit, so the position computed at line 126 is defined |
| `JavaLong.LeadingZerosOfZero` | src/main/java/org/arc/Arc.java:123 | `Long.numberOfLeadingZeros(0)` is 64, the case the source special-cases before line 126 |
| `ConsumerMask.FindNextWithDifferentLeftmostBit` | src/main/java/org/arc/Arc.java:122-133 | the next consumer bit, written step by step as the source computes it; `ConsumerMask.NextAtHighestBit`, `ConsumerMask.NextAbovePositive`, `ConsumerMask.NextOfNegative` and `ConsumerMask.NextAddsABit` state what it yields |
| `ConsumerMask.NextAtHighestBit` | src/main/java/org/arc/Arc.java:122-133 | on a nonzero input, the function clears up to the true highest set bit p and sets bit p + 1 |
| `ConsumerMask.NextAbovePositive` | src/main/java/org/arc/Arc.java:126-132 | for a positive `long` with highest bit p, the mask covers every set bit and the result is the single bit p + 1: disjoint from the input, greater than it as an unsigned 64-bit value (for p = 62 the result is `Long.MIN_VALUE`, negative as a `long`), and the new highest bit of their union |
| `ConsumerMask.NextOfNegative` | src/main/java/org/arc/Arc.java:126-132 | for a negative `long` the shift count 64 wraps to 0, the mask is 0, and the result is v with bit 0 set |
| `ConsumerMask.NextAddsABit` | src/main/java/org/arc/Arc.java:122-133 | the result is never 0, and a non-negative input shares no bit with it |
| `ConsumerMask.NegativeEvenGainsBitZero` | src/main/java/org/arc/Arc.java:126-132 | a negative even input gains exactly bit 0, since both shifts wrap to a count of 0 |
| `ConsumerMask.NextOfLowMask` | src/main/java/org/arc/Arc.java:122-133 | from the mask `2^k - 1` the next bit is bit k, and OR-ing it in gives `2^(k+1) - 1` |
| `ConsumerMask.ClearBelowTopBit` | src/main/java/org/arc/Arc.java:129-132 | below bit 63, clearing up to the highest bit p and setting bit p + 1 leaves exactly bit p + 1, above every bit of the input |
| `ConsumerMask.ClearBelowSignBit` | src/main/java/org/arc/Arc.java:129-132 | at bit 63 both shifts are by 0, so the step just sets bit 0 |
| `ConsumerMask.RegisterConsumer` | src/main/java/org/arc/Arc.java:196-206 | the mask and token one registration computes, with the CAS loop as one step; `ConsumerMask.RegisterKeepsOldBits`, `ConsumerMask.RegisterOnLowMask`, `ConsumerMask.TokenSchedule` and `ConsumerMask.RegisterOnFullMask` state what they are |
| `ConsumerMask.RegisterKeepsOldBits` | src/main/java/org/arc/Arc.java:196-206 | registering never drops a bit of the pool mask, and the mask is nonzero afterwards |
| `ConsumerMask.RegisterAbovePositive` | src/main/java/org/arc/Arc.java:196-206 | while bit 63 is clear, registration adds the bit just above the highest one and returns the token `1L << (that bit's value & 63)` |
| `ConsumerMask.SetBitAboveHighest` | src/main/java/org/arc/Arc.java:203 | OR-ing in the bit above the highest one adds exactly that bit, which becomes the new highest bit |
| `ConsumerMask.RegisterOnEmptyMask` | src/main/java/org/arc/Arc.java:196-206 | the first registration on a new pool makes the mask 1 and returns the token 2 |
| `ConsumerMask.RegisterOnLowMask` | src/main/java/org/arc/Arc.java:196-206 | registration k turns mask `2^k - 1` into `2^(k+1) - 1` with token `1L << 2^k` |
| `ConsumerMask.MaskAfterIsLowMask` | src/main/java/org/arc/Arc.java:196-206 | after k registrations (k ≤ 64) from an empty mask the mask is `2^k - 1`: bits are assigned in increasing order and never reused |
| `ConsumerMask.TokenSchedule` | src/main/java/org/arc/Arc.java:205 | the token of registration k is `1 << 2^k` for k < 6 and 1 from then on, never the bit just registered |
| `ConsumerMask.RegisterOnFullMask` | src/main/java/org/arc/Arc.java:196-206 | a 65th registration leaves the mask all ones and returns bit 63 |
| `ConsumerMask.TokenAccessQuirk` | src/main/java/org/arc/Arc.java:205-221 | the first consumer's token is refused by an Arc built right after it registered, while every token from the seventh on is accepted by such an Arc |
| `ConsumerMask.Grants` | src/main/java/org/arc/Arc.java:217 | the test `checkAccess` applies: the snapshot and the token share a bit; which tokens pass which snapshots is stated by `ConsumerMask.EarlyTokenGrantedAfter` and `ConsumerMask.LateTokenGrantedAfter` |
| `ConsumerMask.LowMaskHasBit` | src/main/java/org/arc/Arc.java:217 | the snapshot `2^m - 1` contains bit j exactly when j < m |
| `ConsumerMask.EarlyTokenGrantedAfter` | src/main/java/org/arc/Arc.java:205-221 | the token of consumer k < 6 is accepted by an Arc built after m registrations iff `2^k < m` |
| `ConsumerMask.LateTokenGrantedAfter` | src/main/java/org/arc/Arc.java:205-221 | the token of consumer k ≥ 6 is accepted by an Arc built after m registrations iff m > 0 |
| `ConsumerMask.StaleSnapshotRefusesLateToken` | src/main/java/org/arc/Arc.java:205-221 | an Arc keeps the mask it was built with: for every consumer from the seventh on (token 1), an Arc built before any registration refuses the token and one built after that consumer registered accepts it |
| `ArcCell.Get` | src/main/java/org/arc/Arc.java:42-48 | `get` throws `ZeroReferenceException` iff the count is ≤ 0 and otherwise returns the payload |
| `ArcCell.Copy` | src/main/java/org/arc/Arc.java:50-62 | `copy` throws zero-reference at count ≤ 0 and overflow at count ≥ `Integer.MAX_VALUE - 1`; otherwise it raises the count by exactly 1 (never past `MAX_VALUE - 1`) and changes nothing else |
| `ArcCell.InitializeReference` | src/main/java/org/arc/Arc.java:64-68 | initialisation succeeds iff the count is 0, leaving it 1 |
| `ArcCell.Decrement` | src/main/java/org/arc/Arc.java:75-87 | `release` throws underflow iff the count is ≤ 0; otherwise the count drops by exactly 1 and the Arc goes back to the pool iff the count read was 1 |
| `ArcCell.ReleaseUndoesCopy` | src/main/java/org/arc/Arc.java:50-87 | a release right after a successful copy restores the Arc and is never the last reference |
| `ArcCell.CopyUndoesRelease` | src/main/java/org/arc/Arc.java:50-87 | a copy right after a release that was not the last restores the Arc |
| `ArcCell.InitializeThenReleaseIsLast` | src/main/java/org/arc/Arc.java:64-87 | the first reference taken by the pool, released, is the last one and returns the Arc to count 0 |
| `ArcCell.CountIsCopiesMinusReleases` | src/main/java/org/arc/Arc.java:50-87 | over any sequence of copies and releases that all succeed, the count is start + copies − releases, never negative, and nothing else changes |
| `ArcCell.OverReleaseFails` | src/main/java/org/arc/Arc.java:75-82 | releasing more often than the references held plus the copies made always ends in an exception |
| `ArcPool.NewPool` | src/main/java/org/arc/Arc.java:114-120 | a new pool is empty, has size 0 and an empty consumer mask, and satisfies the pool invariant |
| `ArcPool.PushNode` | src/main/java/org/arc/Arc.java:171-178 | the pushed node becomes the head over the old stack and the size rises by 1 |
| `ArcPool.PopNode` | src/main/java/org/arc/Arc.java:180-194 | an empty stack yields null and no change; otherwise the head is removed and returned and the size drops by 1 |
| `ArcPool.PopUndoesPush` | src/main/java/org/arc/Arc.java:171-194 | the stack is LIFO: a pop right after a push returns the pushed node and the pool as it was |
| `ArcPool.InitializeAcquired` | src/main/java/org/arc/Arc.java:155 | the end of `acquire` takes the first reference iff the count is 0; a popped node and any fresh payload stay in place even when it throws |
| `ArcPool.Acquire` | src/main/java/org/arc/Arc.java:139-158 | `acquire` pops the head and reuses its Arc, or builds a new node whose Arc snapshots the current mask; a successful result has count 1 and a payload |
| `ArcPool.ReturnObject` | src/main/java/org/arc/Arc.java:160-169 | below capacity the node is pushed; at or above capacity the payload is cleared, the node dropped, and the stack and size unchanged |
| `ArcPool.Release` | src/main/java/org/arc/Arc.java:75-87 | a release throws underflow iff the count is 0 or less and leaves the pool unchanged then; a release from above 1 only lowers the count; the release from 1 also calls `returnObject` |
| `ArcPool.Close` | src/main/java/org/arc/Arc.java:70-73 | `close` is `release` |
| `ArcPool.CopyArc` | src/main/java/org/arc/Arc.java:50-62 | `copy` on an Arc of the pool succeeds or throws as `ArcCell.Copy` does and changes only that Arc |
| `ArcPool.GetValue` | src/main/java/org/arc/Arc.java:42-48 | `get` on an Arc of the pool is `ArcCell.Get` of its state |
| `PoolProperties.LiveHasPayload` | src/main/java/org/arc/Arc.java:42-48 | in a valid pool, `get` on an Arc with a reference held succeeds and returns a payload, never null |
| `ArcPool.RegisterConsumer` | src/main/java/org/arc/Arc.java:196-206 | registration changes the pool mask only, no Arc's snapshot, and returns the token of the mask arithmetic |
| `ArcPool.CheckAccess` | src/main/java/org/arc/Arc.java:216-221 | `checkAccess` throws `AccessDeniedException` iff the Arc's snapshot shares no bit with the token, and otherwise returns the same Arc |
| `ArcPool.EmptyRegistry` | src/main/java/org/arc/Arc.java:102 | the process starts with no named pools |
| `ArcPool.GetOrCreateNamedPool` | src/main/java/org/arc/Arc.java:110-112 | a known name returns its handle and changes nothing; a new name gets a fresh pool with the given capacity; names never share a pool |
| `ArcPool.GetPoolSize` | src/main/java/org/arc/Arc.java:135-137 | `getPoolSize` reads the size counter; what that counter means is stated by `ArcPool.PoolSizeIsIdleCount` |
| `ArcPool.PoolSizeIsIdleCount` | src/main/java/org/arc/Arc.java:135-137 | the reported size is the length of the free list, never above a non-negative capacity, and 0 when the capacity is not positive |
| `PoolProperties.AcquireKeepsValid` | src/main/java/org/arc/Arc.java:139-158 | on a valid pool `acquire` never throws (every stacked Arc has count 0) and keeps the pool valid |
| `PoolProperties.AcquireReusesHead` | src/main/java/org/arc/Arc.java:140-147 | with an idle Arc available, `acquire` returns the head Arc with its payload and snapshot, count 1, and no factory call |
| `PoolProperties.AcquireBuildsNew` | src/main/java/org/arc/Arc.java:148-153 | with an empty stack, `acquire` builds a node never used before, with one factory call and the current mask as snapshot |
| `PoolProperties.FactoryOnlyWhenFreeListEmpty` | src/main/java/org/arc/Arc.java:143-151 | in a valid pool the factory runs exactly when the stack is empty; a stacked Arc never lacks its payload |
| `PoolProperties.ReleaseKeepsValid` | src/main/java/org/arc/Arc.java:75-87 | a successful release keeps the pool valid |
| `PoolProperties.DecrementKeepsValid` | src/main/java/org/arc/Arc.java:75-83 | a release from a count above 1 keeps the pool valid |
| `PoolProperties.PushIdleKeepsValid` | src/main/java/org/arc/Arc.java:160-163 | the last release below capacity pushes a node not yet on the stack and keeps the pool valid |
| `PoolProperties.DropIdleKeepsValid` | src/main/java/org/arc/Arc.java:164-168 | the last release at capacity clears the payload, drops the Arc and keeps the pool valid |
| `PoolProperties.CopyKeepsValid` | src/main/java/org/arc/Arc.java:50-62 | a successful copy keeps the pool valid |
| `PoolProperties.RegisterKeepsValid` | src/main/java/org/arc/Arc.java:196-206 | registration keeps the pool valid: every snapshot stays a subset of the growing mask |
| `PoolProperties.SubsetGrows` | src/main/java/org/arc/Arc.java:31 | a snapshot within an older mask is within every mask containing it |
| `PoolProperties.ReleaseThenAcquireRestores` | src/main/java/org/arc/Arc.java:139-194 | releasing the last reference below capacity and then acquiring returns the same Arc and leaves the pool exactly as it was, with no factory call |
| `PoolProperties.ReleaseWhenFullDrops` | src/main/java/org/arc/Arc.java:160-169 | the last release at capacity clears the payload and leaves the stack alone; `get` on the stale Arc throws, and the next `acquire` never returns it |
| `PoolProperties.ReusedArcKeepsOldSnapshot` | src/main/java/org/arc/Arc.java:143-150 | after a registration, a reused Arc keeps the snapshot it was built with, not the pool's new mask |
| `PoolProperties.NamedPoolIsShared` | src/main/java/org/arc/Arc.java:110-112 | asking again for a name returns the same handle and changes nothing, whatever capacity is passed the second time |
| `PoolProperties.DistinctNamesDistinctPools` | src/main/java/org/arc/Arc.java:110-112 | two names never share a pool, and creating the second does not move the first |
| `PoolProperties.StaleSnapshotScenario` | src/main/java/org/arc/Arc.java:139-221 | an Arc built before the first registration refuses that consumer's token (as the fresh mask 1 would too, because of the token shift), and after being returned and reacquired it still carries the empty snapshot while the pool mask is 1 |
| `PoolProperties.CapacityOneAcquires` | src/main/java/org/arc/Arc.java:139-158 | on a capacity-1 pool two acquires build nodes 0 and 1 with one factory call each |
| `PoolProperties.CapacityOneReturns` | src/main/java/org/arc/Arc.java:160-178 | releasing both: the first goes on the free list, the second finds the pool full and is dropped with its payload cleared |
| `PoolProperties.CapacityOneReacquires` | src/main/java/org/arc/Arc.java:139-194 | the next acquire reuses node 0 with no factory call; the one after builds node 2 with the third factory call |
| `PoolProperties.CapacityZeroScenario` | src/main/java/org/arc/Arc.java:139-169 | on a capacity-0 pool a released Arc is dropped, the size stays 0, and the next acquire calls the factory again |
| `BitHacks.FindNextWithDifferentLeftmostBit` | src/test/java/org/example/BitHacks.java:31-42 | the demo class's own copy of the next-bit function, line for line; `BitHacks.SameAsPoolVersion` proves it equal to the pool's and `BitHacks.SampleInputs` pins its sample outputs |
| `BitHacks.SameAsPoolVersion` | src/test/java/org/example/BitHacks.java:31-42 | the demo copy of the bit function agrees with the pool's on every input |
| `BitHacks.SampleInputs` | src/test/java/org/example/BitHacks.java:5-20 | the sample inputs map 0b1010→0b10000, 0b1000→0b10000, 0b0111→0b1000, 0→1, 255→256 and `Long.MAX_VALUE`→`Long.MIN_VALUE` |
| `BitHacks.SampleAbove` | src/test/java/org/example/BitHacks.java:35-41 | an input below bit 63 with highest bit p maps to bit p + 1 |
| `BitHacks.Round` | src/test/java/org/example/BitHacks.java:24-25 | a round started from the mask `2^i - 1` prints bit i and leaves the mask `2^(i+1) - 1` |
| `BitHacks.MaskDemo` | src/test/java/org/example/BitHacks.java:22-28 | the five rounds print 1, 2, 4, 8, 16 and end with the mask 31, the pool's mask after five registrations |

## Left out

- Concurrency is not modelled. Each CAS retry loop is one atomic step, so the
  following are outside the model: interleavings, `VarHandle`/`volatile`
  memory ordering, ABA on the Treiber stack, the race between the
  `poolSize` check in `returnObject` and the push, and the thread-safety of
  `ConcurrentHashMap.computeIfAbsent`.
- The payload factory is a counter producing fresh payloads: it never
  returns null and never throws. A `Supplier` that returned null would make
  the refill branch of `acquire` reachable and break the invariant that only
  a dropped Arc lacks its payload, on which
  `PoolProperties.FactoryOnlyWhenFreeListEmpty` and
  `PoolProperties.LiveHasPayload` rest. The payload's contents, and the
  factory argument that `getOrCreateNamedPool` ignores for a known name, are
  not modelled.
- `ArcPool.GetOrCreateNamedPool`: sharing is modelled by the handle only.
  The registry holds each named pool as it was when created, and a named
  pool's later state is held by its caller and never written back, so a
  second lookup of the name yields the handle but not the pool's current
  state. In Java `computeIfAbsent` returns the same object, whose current
  state every caller sees; object aliasing is not modelled.
- `ArcPool.GetPoolSize` has no contract of its own: it only reads the
  counter. What it reports is stated by `ArcPool.PoolSizeIsIdleCount`.
- Pool operations take a node id that the pool has built (`id in p.arcs`).
  In Java an Arc can only come from its own pool.
- The pool lemmas assume the pool invariant `Valid`, which `NewPool` establishes
  and every operation preserves.
- `Acquire` itself only requires that every stacked id resolves to an Arc
  and is not in `dropped`. A popped node without an Arc would be a
  `NullPointerException` in the source, a stacked node that was also dropped
  cannot arise there, and the invariant rules both out.
- The counter `poolSize` is an unbounded `int`. The invariant keeps it equal
  to the stack length and below the `int` capacity, so the Java `int`
  counter cannot wrap.
- `Node.next` is not a separate field: it is the order of the free-list
  sequence, so clearing it on pop and return needs no model. `node.value =
  null` on an over-capacity return is modelled by the Arc's place in
  `dropped`.
- Generics, the unchecked cast in the registry, the exception messages and
  the `AutoCloseable` plumbing beyond `close = release` are left out.
- `System.out` printing in `BitHacks` is left out. `MaskDemo` returns the
  printed bits instead.
- `ArcExample.java` is left out: a multithreaded producer/consumer harness
  with nothing sequential to state.
- `ArcNamedPoolExample.java` is left out: an empty `main` and a
  floating-point market-data builder.
