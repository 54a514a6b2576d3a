/** Properties of the pool: the invariant every operation preserves, the
    last-in-first-out reuse of Arcs, the over-capacity drop, and the consumer
    mask snapshot that is never refreshed. */
module PoolProperties {
  import opened Results
  import opened ArcCell
  import opened ArcPool
  import ConsumerMask

  /** On a valid pool `acquire` never throws, and it keeps the pool valid. */
  lemma AcquireKeepsValid(p: Pool)
    requires Valid(p)
    ensures Acquire(p).result.Success?
    ensures Valid(Acquire(p).pool)
  {
    var s := Acquire(p);
    if p.freeList != [] {
      var id := p.freeList[0];
      assert ArcConsistent(p, id);
      assert s.pool.arcs == p.arcs[id := p.arcs[id].(refCount := 1)];
      assert id !in s.pool.freeList by {
        forall i | 0 <= i < |s.pool.freeList|
          ensures s.pool.freeList[i] != id
        {
          assert s.pool.freeList[i] == p.freeList[i + 1];
        }
      }
      forall j | j in s.pool.arcs
        ensures ArcConsistent(s.pool, j)
      {
        assert ArcConsistent(p, j);
        if j != id {
          assert j in p.freeList ==> j in s.pool.freeList by {
            if j in p.freeList {
              var k :| 0 <= k < |p.freeList| && p.freeList[k] == j;
              assert k != 0;
              assert s.pool.freeList[k - 1] == j;
            }
          }
        }
      }
    } else {
      var id := p.nextNode;
      forall j | j in s.pool.arcs
        ensures ArcConsistent(s.pool, j)
      {
        if j != id {
          assert ArcConsistent(p, j);
        }
      }
    }
  }

  /** With an Arc on the free list, `acquire` hands out the head Arc with its
      payload and its old snapshot, and calls no factory. */
  lemma AcquireReusesHead(p: Pool)
    requires Valid(p) && p.freeList != []
    ensures Acquire(p).result == Success(p.freeList[0])
    ensures Acquire(p).pool == p.(freeList := p.freeList[1..], poolSize := p.poolSize - 1,
                                  arcs := p.arcs[p.freeList[0] := p.arcs[p.freeList[0]].(refCount := 1)])
  {
    assert ArcConsistent(p, p.freeList[0]);
  }

  /** With an empty free list, `acquire` builds a brand-new Arc on a fresh
      node, fills it from the factory, and snapshots the current mask. */
  lemma AcquireBuildsNew(p: Pool)
    requires Valid(p) && p.freeList == []
    ensures p.nextNode !in p.arcs
    ensures Acquire(p).result == Success(p.nextNode)
    ensures Acquire(p).pool == p.(nextNode := p.nextNode + 1, factoryCalls := p.factoryCalls + 1,
      arcs := p.arcs[p.nextNode := Arc(p.nextNode, p.allConsumerMask, 1, Some(Payload(p.factoryCalls)))])
  {
  }

  /** In a valid pool an Arc on the free list always still has its payload,
      so `acquire` calls the factory exactly when the free list is empty. */
  lemma FactoryOnlyWhenFreeListEmpty(p: Pool)
    requires Valid(p)
    ensures Acquire(p).pool.factoryCalls == p.factoryCalls + 1 <==> p.freeList == []
    ensures Acquire(p).pool.factoryCalls == p.factoryCalls <==> p.freeList != []
  {
    if p.freeList != [] {
      AcquireReusesHead(p);
    } else {
      AcquireBuildsNew(p);
    }
  }

  /** While a reference is held, `get` succeeds and never sees a missing
      payload: only a dropped Arc lacks one, and a dropped Arc is idle. */
  lemma LiveHasPayload(p: Pool, id: NodeId)
    requires Valid(p) && id in p.arcs && p.arcs[id].refCount > 0
    ensures GetValue(p, id).Success? && GetValue(p, id).value.Some?
  {
    assert ArcConsistent(p, id);
  }

  /** A successful release keeps the pool valid. */
  lemma ReleaseKeepsValid(p: Pool, id: NodeId)
    requires Valid(p) && id in p.arcs && Release(p, id).Success?
    ensures Valid(Release(p, id).value)
  {
    var a := p.arcs[id];
    assert ArcConsistent(p, id);
    if a.refCount > 1 {
      DecrementKeepsValid(p, id);
    } else if p.poolSize < p.maxPoolSize {
      PushIdleKeepsValid(p, id);
    } else {
      DropIdleKeepsValid(p, id);
    }
  }

  lemma DecrementKeepsValid(p: Pool, id: NodeId)
    requires Valid(p) && id in p.arcs && p.arcs[id].refCount > 1
    ensures Valid(p.(arcs := p.arcs[id := p.arcs[id].(refCount := p.arcs[id].refCount - 1)]))
  {
    var q := p.(arcs := p.arcs[id := p.arcs[id].(refCount := p.arcs[id].refCount - 1)]);
    forall j | j in q.arcs
      ensures ArcConsistent(q, j)
    {
      assert ArcConsistent(p, j);
    }
  }

  lemma PushIdleKeepsValid(p: Pool, id: NodeId)
    requires Valid(p) && id in p.arcs && p.arcs[id].refCount == 1 && p.poolSize < p.maxPoolSize
    ensures Valid(PushNode(p.(arcs := p.arcs[id := p.arcs[id].(refCount := 0)]), id))
  {
    assert ArcConsistent(p, id);
    var q := PushNode(p.(arcs := p.arcs[id := p.arcs[id].(refCount := 0)]), id);
    assert q.freeList == [id] + p.freeList;
    forall j | j in q.arcs
      ensures ArcConsistent(q, j)
    {
      assert ArcConsistent(p, j);
      assert j in q.freeList <==> j == id || j in p.freeList;
    }
  }

  lemma DropIdleKeepsValid(p: Pool, id: NodeId)
    requires Valid(p) && id in p.arcs && p.arcs[id].refCount == 1
    ensures Valid(p.(arcs := p.arcs[id := p.arcs[id].(refCount := 0, value := None)],
                     dropped := p.dropped + {id}))
  {
    var q := p.(arcs := p.arcs[id := p.arcs[id].(refCount := 0, value := None)],
                dropped := p.dropped + {id});
    assert ArcConsistent(p, id);
    forall j | j in q.arcs
      ensures ArcConsistent(q, j)
    {
      assert ArcConsistent(p, j);
    }
  }

  /** A successful copy keeps the pool valid. */
  lemma CopyKeepsValid(p: Pool, id: NodeId)
    requires Valid(p) && id in p.arcs && CopyArc(p, id).Success?
    ensures Valid(CopyArc(p, id).value)
  {
    var q := CopyArc(p, id).value;
    forall j | j in q.arcs
      ensures ArcConsistent(q, j)
    {
      assert ArcConsistent(p, j);
    }
  }

  /** Registering a consumer keeps the pool valid: the mask only grows, so
      every earlier snapshot is still a subset of it. */
  lemma RegisterKeepsValid(p: Pool)
    requires Valid(p)
    ensures Valid(RegisterConsumer(p).pool)
  {
    var q := RegisterConsumer(p).pool;
    ConsumerMask.RegisterKeepsOldBits(p.allConsumerMask);
    assert ConsumerMask.BitsWithin(p.allConsumerMask, q.allConsumerMask);
    forall j | j in q.arcs
      ensures ArcConsistent(q, j)
    {
      assert ArcConsistent(p, j);
      SubsetGrows(p.arcs[j].consumerMask, p.allConsumerMask, q.allConsumerMask);
    }
  }

  lemma SubsetGrows(a: bv64, b: bv64, c: bv64)
    requires ConsumerMask.BitsWithin(a, b) && ConsumerMask.BitsWithin(b, c)
    ensures ConsumerMask.BitsWithin(a, c)
  {
  }

  /** Releasing the last reference of an Arc while the pool has room, then
      acquiring, gives back the same Arc with the same payload and leaves the
      pool exactly as it was: no node is built and no factory call is made. */
  lemma ReleaseThenAcquireRestores(p: Pool, id: NodeId)
    requires Valid(p) && id in p.arcs
    requires p.arcs[id].refCount == 1 && p.poolSize < p.maxPoolSize
    ensures Release(p, id).Success?
    ensures Acquire(Release(p, id).value) == Acquired(p, Success(id))
  {
    var q := Release(p, id).value;
    ReleaseKeepsValid(p, id);
    AcquireReusesHead(q);
    assert q.freeList[1..] == p.freeList;
    assert q.arcs[id := q.arcs[id].(refCount := 1)] == p.arcs;
  }

  /** Releasing the last reference when the pool is full clears the payload
      and cuts the Arc loose: the free list is unchanged, a later `get` on the
      stale Arc throws, and the next `acquire` never returns it. */
  lemma ReleaseWhenFullDrops(p: Pool, id: NodeId)
    requires Valid(p) && id in p.arcs
    requires p.arcs[id].refCount == 1 && p.poolSize >= p.maxPoolSize
    ensures Release(p, id).Success?
    ensures Release(p, id).value.freeList == p.freeList
    ensures Release(p, id).value.arcs[id] == p.arcs[id].(refCount := 0, value := None)
    ensures GetValue(Release(p, id).value, id) == Failure(ZeroReference)
    ensures Acquire(Release(p, id).value).result.Success?
    ensures Acquire(Release(p, id).value).result.value != id
  {
    var q := Release(p, id).value;
    ReleaseKeepsValid(p, id);
    AcquireKeepsValid(q);
    assert ArcConsistent(q, id);
    if q.freeList != [] {
      AcquireReusesHead(q);
      assert q.freeList[0] in q.freeList;
    } else {
      AcquireBuildsNew(q);
    }
  }

  /** An Arc built before a consumer registered keeps its old snapshot even
      after it has been returned and reused: `acquire` hands out the reused
      Arc with the mask it was built with, not the pool's current mask. */
  lemma ReusedArcKeepsOldSnapshot(p: Pool)
    requires Valid(p) && p.freeList != []
    ensures FreeListResolves(RegisterConsumer(p).pool)
    ensures var s := Acquire(RegisterConsumer(p).pool);
            s.result == Success(p.freeList[0]) &&
            s.pool.arcs[p.freeList[0]].consumerMask == p.arcs[p.freeList[0]].consumerMask
  {
    RegisterKeepsValid(p);
    AcquireReusesHead(RegisterConsumer(p).pool);
  }

  /** Asking again for a name returns the same pool and changes nothing,
      whatever capacity the second call passes. */
  lemma NamedPoolIsShared(reg: Registry, name: string, first: Int32, second: Int32)
    requires RegistryValid(reg)
    ensures var r := GetOrCreateNamedPool(reg, name, first);
            GetOrCreateNamedPool(r.registry, name, second) == r
    ensures var r := GetOrCreateNamedPool(reg, name, first);
            r.registry.pools[r.handle] == if name in reg.names then reg.pools[reg.names[name]] else NewPool(first)
  {
  }

  /** Two different names never share a pool, and creating the second does
      not move the first. */
  lemma DistinctNamesDistinctPools(reg: Registry, a: string, b: string, ma: Int32, mb: Int32)
    requires RegistryValid(reg) && a != b
    ensures var ra := GetOrCreateNamedPool(reg, a, ma);
            var rb := GetOrCreateNamedPool(ra.registry, b, mb);
            rb.handle != ra.handle && rb.registry.names[a] == ra.handle
            && rb.registry.pools[ra.handle] == ra.registry.pools[ra.handle]
  {
  }

  /** A run on a pool of capacity 4. The first Arc is built before any
      consumer registers, so its snapshot is empty and the first consumer's
      token (2) is refused. Returned to the pool and acquired again it is the
      same Arc with the same empty snapshot, although the pool's mask is now
      1. Token 2 would be refused by the fresh snapshot 1 as well, because of
      the token shift; `ConsumerMask.StaleSnapshotRefusesLateToken` shows a
      refusal that the snapshot's age alone causes. */
  lemma StaleSnapshotScenario()
    ensures var a := Acquire(NewPool(4));
            var reg := RegisterConsumer(a.pool);
            && a.result == Success(0)
            && reg.token == ConsumerToken(2)
            && reg.pool.allConsumerMask == 1
            && !ConsumerMask.Grants(reg.pool.allConsumerMask, reg.token.consumerMask)
            && 0 in reg.pool.arcs
            && CheckAccess(reg.token, reg.pool.arcs[0]) == Failure(AccessDenied)
            && Release(reg.pool, 0).Success?
            && FreeListResolves(Release(reg.pool, 0).value)
            && Acquire(Release(reg.pool, 0).value).result == Success(0)
            && 0 in Acquire(Release(reg.pool, 0).value).pool.arcs
            && Acquire(Release(reg.pool, 0).value).pool.arcs[0].consumerMask == 0
  {
    var p := NewPool(4);
    AcquireBuildsNew(p);
    AcquireKeepsValid(p);
    var a := Acquire(p);
    ConsumerMask.RegisterOnEmptyMask();
    RegisterKeepsValid(a.pool);
    var reg := RegisterConsumer(a.pool);
    ReleaseThenAcquireRestores(reg.pool, 0);
  }

  /** A pool of capacity 1 from which two Arcs have been acquired. This
      literal is tied to `NewPool` only through `CapacityOneAcquires`. */
  function TwoOut(): Pool
  {
    Pool([], 0, 1, 0, map[0 := Arc(0, 0, 1, Some(Payload(0))), 1 := Arc(1, 0, 1, Some(Payload(1)))], {}, 2, 2)
  }

  /** The same pool after both Arcs were released, first Arc 0, then Arc 1.
      This literal is tied to `TwoOut` only through `CapacityOneReturns`. */
  function BothReturned(): Pool
  {
    Pool([0], 1, 1, 0, map[0 := Arc(0, 0, 0, Some(Payload(0))), 1 := Arc(1, 0, 0, None)], {1}, 2, 2)
  }

  /** A run on a pool of capacity 1: two acquires build two Arcs, each with
      its own factory call. */
  lemma CapacityOneAcquires()
    ensures Acquire(NewPool(1)).result == Success(0)
    ensures Acquire(Acquire(NewPool(1)).pool) == Acquired(TwoOut(), Success(1))
  {
    var p := NewPool(1);
    AcquireBuildsNew(p);
    AcquireKeepsValid(p);
    AcquireBuildsNew(Acquire(p).pool);
  }

  /** Continuing the run: the first Arc returned goes on the free list; the
      second finds the pool full, so its payload is cleared and it is dropped. */
  lemma CapacityOneReturns()
    ensures Release(TwoOut(), 0).Success?
    ensures 1 in Release(TwoOut(), 0).value.arcs
    ensures Release(Release(TwoOut(), 0).value, 1) == Success(BothReturned())
  {
    var r := Release(TwoOut(), 0).value;
    assert r.freeList == [0];
    assert r.arcs == map[0 := Arc(0, 0, 0, Some(Payload(0))), 1 := Arc(1, 0, 1, Some(Payload(1)))];
    var q := Release(r, 1).value;
    assert q.arcs == BothReturned().arcs;
    assert q.dropped == {1};
  }

  /** Ending the run: the next acquire reuses Arc 0 without a factory call,
      and the one after that builds a third node, the third factory call. */
  lemma CapacityOneReacquires()
    ensures Acquire(BothReturned()).result == Success(0)
    ensures Acquire(BothReturned()).pool.factoryCalls == 2
    ensures FreeListResolves(Acquire(BothReturned()).pool)
    ensures Acquire(Acquire(BothReturned()).pool).result == Success(2)
    ensures Acquire(Acquire(BothReturned()).pool).pool.factoryCalls == 3
  {
    var q := BothReturned();
    assert Valid(q) by {
      forall j | j in q.arcs
        ensures ArcConsistent(q, j)
      {
      }
    }
    AcquireReusesHead(q);
    AcquireKeepsValid(q);
    AcquireBuildsNew(Acquire(q).pool);
  }

  /** A run on a pool of capacity 0: the released Arc cannot be kept, so the
      size stays 0, the payload is cleared, and the next acquire builds a
      new node with a second factory call. */
  lemma CapacityZeroScenario()
    ensures var a := Acquire(NewPool(0));
            && a.result == Success(0)
            && 0 in a.pool.arcs
            && Release(a.pool, 0).Success?
            && var q := Release(a.pool, 0).value;
            && GetPoolSize(q) == 0
            && 0 in q.arcs && q.arcs[0].value == None
            && FreeListResolves(q)
            && Acquire(q).result == Success(1)
            && Acquire(q).pool.factoryCalls == 2
  {
    var p := NewPool(0);
    AcquireBuildsNew(p);
    AcquireKeepsValid(p);
    var a := Acquire(p);
    ReleaseWhenFullDrops(a.pool, 0);
    ReleaseKeepsValid(a.pool, 0);
    AcquireBuildsNew(Release(a.pool, 0).value);
  }
}
