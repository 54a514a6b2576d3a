/** `Arc.ArcPool` and `Arc.ConsumerToken`: a pool of Arcs kept on a LIFO free
    list of nodes, a bounded number of idle Arcs, and a 64-bit consumer mask.
    The pool is a value; every operation returns the pool after it. Each
    compare-and-swap loop is one atomic step, and the factory is a counter:
    its n-th call produces `Payload(n)`. */
module ArcPool {
  import opened Results
  import opened ArcCell
  import ConsumerMask

  /** The state of one pool and of every Arc it has built.
      - freeList: the node ids on the Treiber stack, head first;
      - poolSize: the `poolSize` counter;
      - allConsumerMask: the bits handed to registered consumers so far;
      - arcs: every Arc built so far, by the id of its node;
      - dropped: the Arcs an over-capacity return cut loose from their node
        (their payload slot is cleared and they are never handed out again);
      - nextNode: the id the next `new Node<>()` gets;
      - factoryCalls: how often `factory.get()` has run. */
  datatype Pool = Pool(
    freeList: seq<NodeId>,
    poolSize: int,
    maxPoolSize: Int32,
    allConsumerMask: bv64,
    arcs: map<NodeId, Arc>,
    dropped: set<NodeId>,
    nextNode: NodeId,
    factoryCalls: nat)

  /** No node appears twice on the free list. */
  predicate DistinctIds(s: seq<NodeId>)
  {
    forall i, j :: 0 <= i < j < |s| ==> s[i] != s[j]
  }

  /** Every node on the free list still carries its Arc. */
  predicate FreeListResolves(p: Pool)
  {
    forall i :: 0 <= i < |p.freeList| ==> p.freeList[i] in p.arcs && p.freeList[i] !in p.dropped
  }

  /** What holds of one Arc in a pool reached from `NewPool`: it sits on its
      own node, its count is a legal copy count, its snapshot is a subset of
      the pool's mask, it is idle exactly when it is on the free list or
      dropped, and it lacks a payload exactly when it was dropped. */
  predicate ArcConsistent(p: Pool, id: NodeId)
    requires id in p.arcs
  {
    var a := p.arcs[id];
    && a.node == id
    && id < p.nextNode
    && 0 <= a.refCount <= INT_MAX - 1
    && ConsumerMask.BitsWithin(a.consumerMask, p.allConsumerMask)
    && (a.refCount == 0 <==> (id in p.freeList || id in p.dropped))
    && (a.value.None? <==> id in p.dropped)
  }

  /** The pool invariant. The counter matches the stack, the stack never
      grows past the capacity (a non-positive capacity keeps it empty), and
      every Arc is consistent. */
  predicate Valid(p: Pool)
  {
    && p.poolSize == |p.freeList|
    && (p.freeList == [] || |p.freeList| <= p.maxPoolSize)
    && DistinctIds(p.freeList)
    && FreeListResolves(p)
    && p.dropped <= p.arcs.Keys
    && (forall id :: id in p.arcs ==> ArcConsistent(p, id))
  }

  /** `new ArcPool<>(factory, maxPoolSize)`: empty stack, zero size, empty
      consumer mask. Any `int` capacity is accepted, negative ones too. */
  function NewPool(maxPoolSize: Int32): (p: Pool)
    ensures Valid(p)
    ensures p.freeList == [] && p.poolSize == 0 && p.maxPoolSize == maxPoolSize
    ensures p.allConsumerMask == 0 && p.arcs == map[] && p.factoryCalls == 0
  {
    Pool([], 0, maxPoolSize, 0, map[], {}, 0, 0)
  }

  /** `ArcPool.getPoolSize`. */
  function GetPoolSize(p: Pool): int
  {
    p.poolSize
  }

  /** The reported size is the number of idle Arcs on the free list, and it
      never exceeds a non-negative capacity. */
  lemma PoolSizeIsIdleCount(p: Pool)
    requires Valid(p)
    ensures GetPoolSize(p) == |p.freeList| >= 0
    ensures p.maxPoolSize >= 0 ==> GetPoolSize(p) <= p.maxPoolSize
    ensures p.maxPoolSize <= 0 ==> GetPoolSize(p) == 0
  {
  }

  /** `pushNode`: the node becomes the new head, and the size goes up. */
  function PushNode(p: Pool, id: NodeId): (q: Pool)
    ensures |q.freeList| > 0 && q.freeList[0] == id && q.freeList[1..] == p.freeList
    ensures q.poolSize == p.poolSize + 1
    ensures q.(freeList := p.freeList, poolSize := p.poolSize) == p
  {
    p.(freeList := [id] + p.freeList, poolSize := p.poolSize + 1)
  }

  /** The pool after `popNode`, and the node it returned (`null` is None). */
  datatype Popped = Popped(pool: Pool, node: Option<NodeId>)

  /** `popNode`: take the head off the stack, or report an empty stack. */
  function PopNode(p: Pool): (r: Popped)
    ensures r.node.None? <==> p.freeList == []
    ensures r.node.None? ==> r.pool == p
    ensures r.node.Some? ==> r.node.value == p.freeList[0]
    ensures r.node.Some? ==> r.pool == p.(freeList := p.freeList[1..], poolSize := p.poolSize - 1)
  {
    if p.freeList == [] then Popped(p, None)
    else Popped(p.(freeList := p.freeList[1..], poolSize := p.poolSize - 1), Some(p.freeList[0]))
  }

  /** The free list is last in, first out: popping right after a push returns
      the pushed node and the pool as it was before the push. */
  lemma PopUndoesPush(p: Pool, id: NodeId)
    ensures PopNode(PushNode(p, id)) == Popped(p, Some(id))
  {
    assert ([id] + p.freeList)[1..] == p.freeList;
  }

  /** The pool after `acquire`, and the Arc's node id or the exception. */
  datatype Acquired = Acquired(pool: Pool, result: Result<NodeId, ArcError>)

  /** `arc.initializeReference()` at the end of `acquire`. The popped node and
      any payload just produced stay in place even when it throws. */
  function InitializeAcquired(p: Pool, id: NodeId, arc: Arc): (s: Acquired)
    ensures s.result.Success? <==> arc.refCount == 0
    ensures s.result.Success? ==> s.result.value == id
    ensures s.result.Failure? ==> s.result.error == NotZeroOnInit
    ensures id in s.pool.arcs && s.pool.arcs[id].value == arc.value
    ensures s.pool.arcs[id].refCount == if arc.refCount == 0 then 1 else arc.refCount
    ensures s.pool.arcs[id] == arc.(refCount := s.pool.arcs[id].refCount)
    ensures s.pool == p.(arcs := p.arcs[id := s.pool.arcs[id]])
  {
    match InitializeReference(arc)
    case Success(a) => Acquired(p.(arcs := p.arcs[id := a]), Success(id))
    case Failure(e) => Acquired(p.(arcs := p.arcs[id := arc]), Failure(e))
  }

  /** `ArcPool.acquire`: reuse the Arc on the head node (refilling its payload
      if it has none), or build a new node and Arc that snapshots the pool's
      current consumer mask; then take the first reference. */
  function Acquire(p: Pool): (s: Acquired)
    requires FreeListResolves(p)
    ensures p.freeList != [] ==> s.pool.freeList == p.freeList[1..] && s.pool.poolSize == p.poolSize - 1
    ensures p.freeList != [] && s.result.Success? ==> s.result.value == p.freeList[0]
    ensures p.freeList == [] ==> s.pool.freeList == [] && s.pool.poolSize == p.poolSize
    ensures p.freeList == [] ==> s.result == Success(p.nextNode) && s.pool.nextNode == p.nextNode + 1
    ensures s.result.Success? ==> s.result.value in s.pool.arcs
    ensures p.freeList == [] ==> p.nextNode in s.pool.arcs && s.pool.arcs[p.nextNode].consumerMask == p.allConsumerMask
    ensures s.result.Success? ==> s.pool.arcs[s.result.value].refCount == 1
    ensures s.result.Success? ==> s.pool.arcs[s.result.value].value.Some?
    ensures s.pool.allConsumerMask == p.allConsumerMask && s.pool.maxPoolSize == p.maxPoolSize
    ensures s.pool.dropped == p.dropped
  {
    var popped := PopNode(p);
    match popped.node
    case Some(id) =>
      var q := popped.pool;
      var arc := q.arcs[id];
      if arc.value.None? then
        InitializeAcquired(q.(factoryCalls := q.factoryCalls + 1), id,
                           arc.(value := Some(Payload(q.factoryCalls))))
      else
        InitializeAcquired(q, id, arc)
    case None =>
      var id := p.nextNode;
      InitializeAcquired(p.(nextNode := id + 1, factoryCalls := p.factoryCalls + 1), id,
                         Arc(id, p.allConsumerMask, 0, Some(Payload(p.factoryCalls))))
  }

  /** `ArcPool.returnObject`: below capacity the node goes back on the free
      list with its payload; at or above capacity the payload is cleared and
      the node is dropped from the pool. */
  function ReturnObject(p: Pool, id: NodeId): (q: Pool)
    requires id in p.arcs
    ensures p.poolSize < p.maxPoolSize ==> q == PushNode(p, id)
    ensures p.poolSize >= p.maxPoolSize ==> q.freeList == p.freeList && q.poolSize == p.poolSize
    ensures p.poolSize >= p.maxPoolSize ==>
      q == p.(arcs := p.arcs[id := p.arcs[id].(value := None)], dropped := p.dropped + {id})
  {
    if p.poolSize < p.maxPoolSize then PushNode(p, id)
    else p.(arcs := p.arcs[id := p.arcs[id].(value := None)], dropped := p.dropped + {id})
  }

  /** `Arc.release`: drop one reference; the reference that takes the count
      from 1 to 0 returns the Arc to its pool. An exception leaves the pool
      untouched. */
  function Release(p: Pool, id: NodeId): (r: Result<Pool, ArcError>)
    requires id in p.arcs
    ensures r.Success? <==> p.arcs[id].refCount > 0
    ensures r.Failure? ==> r.error == CountUnderflow
    ensures p.arcs[id].refCount > 1 ==>
      r == Success(p.(arcs := p.arcs[id := p.arcs[id].(refCount := p.arcs[id].refCount - 1)]))
    ensures p.arcs[id].refCount == 1 ==>
      r == Success(ReturnObject(p.(arcs := p.arcs[id := p.arcs[id].(refCount := 0)]), id))
  {
    match Decrement(p.arcs[id])
    case Failure(e) => Failure(e)
    case Success(d) =>
      var q := p.(arcs := p.arcs[id := d.arc]);
      Success(if d.wasLast then ReturnObject(q, id) else q)
  }

  /** `Arc.close` is `release`. */
  function Close(p: Pool, id: NodeId): (r: Result<Pool, ArcError>)
    requires id in p.arcs
    ensures r == Release(p, id)
  {
    Release(p, id)
  }

  /** `Arc.copy` on an Arc of the pool. */
  function CopyArc(p: Pool, id: NodeId): (r: Result<Pool, ArcError>)
    requires id in p.arcs
    ensures r.Success? <==> Copy(p.arcs[id]).Success?
    ensures r.Failure? ==> r.error == Copy(p.arcs[id]).error
    ensures r.Success? ==> r.value == p.(arcs := p.arcs[id := Copy(p.arcs[id]).value])
  {
    match Copy(p.arcs[id])
    case Failure(e) => Failure(e)
    case Success(a) => Success(p.(arcs := p.arcs[id := a]))
  }

  /** `Arc.get` on an Arc of the pool. */
  function GetValue(p: Pool, id: NodeId): (r: Result<Option<Payload>, ArcError>)
    requires id in p.arcs
    ensures r == Get(p.arcs[id])
  {
    Get(p.arcs[id])
  }

  /** A consumer token: the single long it was built with. */
  datatype ConsumerToken = ConsumerToken(consumerMask: bv64)

  datatype Registered = Registered(pool: Pool, token: ConsumerToken)

  /** `ArcPool.registerConsumer`: the pool's mask grows; no Arc changes, so
      Arcs built earlier keep their older snapshot. */
  function RegisterConsumer(p: Pool): (r: Registered)
    ensures r.pool == p.(allConsumerMask := ConsumerMask.RegisterConsumer(p.allConsumerMask).mask)
    ensures r.token.consumerMask == ConsumerMask.RegisterConsumer(p.allConsumerMask).token
  {
    var reg := ConsumerMask.RegisterConsumer(p.allConsumerMask);
    Registered(p.(allConsumerMask := reg.mask), ConsumerToken(reg.token))
  }

  /** `ConsumerToken.checkAccess`: the Arc itself when its snapshot shares a
      bit with the token, `AccessDeniedException` otherwise. */
  function CheckAccess(t: ConsumerToken, arc: Arc): (r: Result<Arc, ArcError>)
    ensures r.Success? <==> ConsumerMask.Grants(arc.consumerMask, t.consumerMask)
    ensures r.Failure? ==> r.error == AccessDenied
    ensures r.Success? ==> r.value == arc
  {
    if ConsumerMask.Grants(arc.consumerMask, t.consumerMask) then Success(arc) else Failure(AccessDenied)
  }

  /** The process-wide `POOLS` map: each name refers to a handle, an index
      into the pools created so far. */
  datatype Registry = Registry(names: map<string, nat>, pools: seq<Pool>)

  /** Every name refers to an existing pool, and no two names share one. */
  predicate RegistryValid(reg: Registry)
  {
    && (forall n :: n in reg.names ==> reg.names[n] < |reg.pools|)
    && (forall n, m :: n in reg.names && m in reg.names && n != m ==> reg.names[n] != reg.names[m])
  }

  function EmptyRegistry(): (reg: Registry)
    ensures RegistryValid(reg) && reg.names == map[]
  {
    Registry(map[], [])
  }

  datatype Named = Named(registry: Registry, handle: nat)

  /** `ArcPool.getOrCreateNamedPool`: `computeIfAbsent` on the name. A name
      seen before gets its existing pool whatever capacity is passed now; a
      new name gets a new pool with the given capacity. */
  function GetOrCreateNamedPool(reg: Registry, poolName: string, maxPoolSize: Int32): (r: Named)
    requires RegistryValid(reg)
    ensures RegistryValid(r.registry)
    ensures poolName in r.registry.names && r.registry.names[poolName] == r.handle
    ensures r.handle < |r.registry.pools|
    ensures poolName in reg.names ==> r == Named(reg, reg.names[poolName])
    ensures poolName !in reg.names ==> r.handle == |reg.pools|
    ensures poolName !in reg.names ==> r.registry.pools == reg.pools + [NewPool(maxPoolSize)]
    ensures poolName !in reg.names ==> r.registry.names == reg.names[poolName := |reg.pools|]
  {
    if poolName in reg.names then Named(reg, reg.names[poolName])
    else
      var handle := |reg.pools|;
      Named(Registry(reg.names[poolName := handle], reg.pools + [NewPool(maxPoolSize)]), handle)
  }
}
