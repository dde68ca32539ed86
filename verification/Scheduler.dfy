// select_pool: which pool the next work is requested from.
module Scheduler {
  import opened Wrappers
  import opened PoolTypes
  import opened Pools
  import PriorityOrder
  import Rotation

  ghost function Workable(pools: seq<Pool>): (r: seq<bool>)
    reads pools`idle, pools`enabled, pools`hasStratum, pools`stratumActive
    ensures |r| == |pools|
    ensures forall i :: 0 <= i < |pools| ==>
              (r[i] <==> && !pools[i].idle && pools[i].enabled == PoolEnabled
                         && (pools[i].hasStratum ==> pools[i].stratumActive))
  {
    if pools == [] then [] else Workable(pools[..|pools| - 1]) + [!pools[|pools| - 1].Unworkable()]
  }

  ghost function QuotaView(t: PoolTable): Rotation.View
    reads t`used, t`gcds, t`rotatingPool
  {
    Rotation.View(t.used, t.gcds, t.rotatingPool)
  }

  // The position of the pool of priority 0.
  ghost function First(prios: seq<int>): (i: int)
    requires PriorityOrder.Permutation(prios) && prios != []
    ensures 0 <= i < |prios| && prios[i] == 0
  {
    PriorityOrder.EveryPriorityOccurs(prios, 0);
    PriorityOrder.Position(prios, 0)
  }

  // select_pool.  With balanced selection the workable pool with fewest shares wins; with quotas the pool
  // the rotation finds, else the usable pool of least priority number, else the current one.
  method SelectPool(t: PoolTable, lagging: bool) returns (pool: Pool)
    requires t.Valid() && t.currentPool != null && 0 <= t.rotatingPool < |t.pools|
    modifies t`rotatingPool, t`used, t.pools`quotaUsed, t.pools`shares
    ensures t.Valid() && 0 <= t.rotatingPool < |t.pools| && pool in t.pools
    ensures t.strategy == Balance ==> QuotaView(t) == old(QuotaView(t)) && FewestShares(t, old(Shares(t.pools)), pool)
    ensures t.strategy != Balance ==> Shares(t.pools) == old(Shares(t.pools))
    ensures t.strategy != Balance && t.strategy != LoadBalance && (!lagging || t.failOnly) ==>
              pool == t.currentPool && QuotaView(t) == old(QuotaView(t))
    ensures t.strategy == LoadBalance || (t.strategy != Balance && lagging && !t.failOnly) ==>
              && Rotation.Ok(old(QuotaView(t)))
              && var (v, choice) :=
                   Rotation.Select(old(QuotaView(t)), old(Workable(t.pools)), t.failOnly, First(t.prios));
                 && QuotaView(t) == v
                 && (choice.Some? ==> pool == t.pools[choice.value])
                 && (choice.None? ==> if t.SomeUsable() then t.LeastUsable(pool) else pool == t.currentPool)
  {
    hide PriorityOrder.Permutation;
    hide PoolTable.QuotasInRange;
    hide Workable;
    hide Shares;
    hide Rotation.Select;
    hide PoolTable.SomeUsable;
    hide PoolTable.LeastUsable;
    hide FewestShares;
    hide First;
    if t.strategy == Balance {
      pool := SelectBalanced(t);
      return;
    }
    if t.strategy != LoadBalance && (!lagging || t.failOnly) {
      return t.currentPool;
    }
    QuotasAreOk(t);
    var found := Rotate(t);
    if found.Some? {
      return found.value;
    }
    pool := t.BestPool();
  }

  lemma QuotasAreOk(t: PoolTable)
    requires t.Valid() && 0 <= t.rotatingPool < |t.pools|
    ensures Rotation.Ok(QuotaView(t))
  {
  }

  ghost function Shares(pools: seq<Pool>): (r: seq<int>)
    reads pools`shares
    ensures |r| == |pools|
    ensures forall i :: 0 <= i < |pools| ==> r[i] == pools[i].shares
  {
    if pools == [] then [] else Shares(pools[..|pools| - 1]) + [pools[|pools| - 1].shares]
  }

  // No workable pool, nor the current one, had fewer shares than the chosen pool, which gets one more. The
  // current pool is kept if it had as few as any, else it is the first workable one that had.
  ghost predicate FewestShares(t: PoolTable, before: seq<int>, pool: Pool)
    reads t, t.pools
    requires t.Recorded() && t.currentPool != null && |before| == |t.pools|
  {
    && pool in t.pools && (pool == t.currentPool || !pool.Unworkable())
    && before[pool.poolNo] <= before[t.currentPool.poolNo]
    && (forall i :: 0 <= i < |before| && !t.pools[i].Unworkable() ==> before[pool.poolNo] <= before[i])
    && (pool != t.currentPool ==>
          && before[pool.poolNo] < before[t.currentPool.poolNo]
          && forall i :: 0 <= i < pool.poolNo && !t.pools[i].Unworkable() ==> before[pool.poolNo] < before[i])
    && Shares(t.pools) == before[pool.poolNo := before[pool.poolNo] + 1]
  }

  method SelectBalanced(t: PoolTable) returns (ret: Pool)
    requires t.Valid() && t.currentPool != null
    modifies t.pools`shares
    ensures t.Valid() && ret in t.pools && FewestShares(t, old(Shares(t.pools)), ret)
  {
    hide PriorityOrder.Permutation;
    hide Shares;
    ret := t.currentPool;
    var lowest := ret.shares;
    var i := 0;
    while i < |t.pools|
      invariant 0 <= i <= |t.pools| && ret in t.pools && lowest == ret.shares <= t.currentPool.shares
      invariant ret == t.currentPool || !ret.Unworkable()
      invariant forall k :: 0 <= k < i && !t.pools[k].Unworkable() ==> lowest <= t.pools[k].shares
      invariant ret != t.currentPool ==>
                  && lowest < t.currentPool.shares && ret.poolNo < i
                  && forall k :: 0 <= k < ret.poolNo && !t.pools[k].Unworkable() ==> lowest < t.pools[k].shares
    {
      var pool := t.pools[i];
      if !pool.Unworkable() && pool.shares < lowest {
        lowest := pool.shares;
        ret := pool;
      }
      i := i + 1;
    }
    ghost var before := Shares(t.pools);
    ret.shares := ret.shares + 1;
    assert Shares(t.pools) == before[ret.poolNo := before[ret.poolNo] + 1];
  }

  // The rotation over the quotas: reset them if none is left, then test each pool once.
  method Rotate(t: PoolTable) returns (found: Option<Pool>)
    requires t.Valid() && Rotation.Ok(QuotaView(t)) && |t.pools| > 0
    modifies t`rotatingPool, t`used, t.pools`quotaUsed
    ensures t.Valid() && 0 <= t.rotatingPool < |t.pools|
    ensures var (v, choice) := Rotation.Select(old(QuotaView(t)), old(Workable(t.pools)), t.failOnly, First(t.prios));
            && QuotaView(t) == v
            && (if choice.Some? then found == Some(t.pools[choice.value]) else found == None)
  {
    hide PriorityOrder.Permutation;
    hide PoolTable.QuotasInRange;
    hide Workable;
    hide Rotation.Scan;
    hide First;
    var avail := AnyQuotaLeft(t);
    if !avail {
      ResetQuotas(t);
    }
    found := TestPools(t);
  }

  method AnyQuotaLeft(t: PoolTable) returns (avail: bool)
    requires t.Valid()
    ensures avail <==> Rotation.AnyQuota(QuotaView(t))
  {
    avail := false;
    var i := 0;
    while i < |t.pools|
      invariant 0 <= i <= |t.pools| && !avail
      invariant forall k :: 0 <= k < i ==> !Rotation.HasQuota(QuotaView(t), k)
    {
      var tp := t.pools[i];
      if tp.quotaUsed < tp.quotaGcd {
        assert Rotation.HasQuota(QuotaView(t), i);
        return true;
      }
      i := i + 1;
    }
  }

  method ResetQuotas(t: PoolTable)
    requires t.Valid() && Rotation.Ok(QuotaView(t))
    modifies t`rotatingPool, t`used, t.pools`quotaUsed
    ensures t.Valid() && QuotaView(t) == Rotation.Reset(old(QuotaView(t)))
  {
    hide PriorityOrder.Permutation;
    hide PoolTable.QuotasInRange;
    hide PoolTable.Recorded;
    ViewSizes(t);
    var i := 0;
    while i < |t.pools|
      invariant 0 <= i <= |t.pools| == |t.used| && t.Valid() && t.rotatingPool == old(t.rotatingPool)
      invariant forall k :: 0 <= k < i ==> t.used[k] == 0
    {
      ResetUse(t, i);
      i := i + 1;
    }
    AdvanceRotation(t);
    assert t.used == seq(|t.used|, _ => 0);
  }

  lemma ViewSizes(t: PoolTable)
    requires t.Valid()
    ensures |t.used| == |t.gcds| == |t.pools|
  {
  }

  method ResetUse(t: PoolTable, i: int)
    requires t.Valid() && 0 <= i < |t.pools|
    modifies t`used, t.pools`quotaUsed
    ensures t.Valid() && |old(t.used)| == |t.pools| && t.used == old(t.used)[i := 0]
  {
    hide PriorityOrder.Permutation;
    hide PoolTable.QuotasInRange;
    t.pools[i].quotaUsed := 0;
    t.used := t.used[i := 0];
  }

  method AdvanceRotation(t: PoolTable)
    requires t.Valid()
    modifies t`rotatingPool
    ensures t.Valid() && t.rotatingPool == Rotation.Advance(old(t.rotatingPool), |t.pools|)
  {
    t.rotatingPool := t.rotatingPool + 1;
    if t.rotatingPool >= |t.pools| {
      t.rotatingPool := 0;
    }
  }

  // At most one test of each pool, starting where the rotation stands.
  method TestPools(t: PoolTable) returns (found: Option<Pool>)
    requires t.Valid() && Rotation.Ok(QuotaView(t)) && |t.pools| > 0
    modifies t`rotatingPool, t`used, t.pools`quotaUsed
    ensures t.Valid() && Rotation.Ok(QuotaView(t))
    ensures var (v, choice) :=
              Rotation.Scan(old(QuotaView(t)), |t.pools|, old(Workable(t.pools)), t.failOnly, First(t.prios));
            && QuotaView(t) == v
            && (if choice.Some? then found == Some(t.pools[choice.value]) else found == None)
  {
    hide PriorityOrder.Permutation;
    hide PoolTable.QuotasInRange;
    hide Workable;
    hide First;
    hide Rotation.Charged;
    hide Rotation.Skipped;
    hide Rotation.Scan;
    ghost var workable, first := Workable(t.pools), First(t.prios);
    var tested := 0;
    while tested < |t.pools|
      invariant 0 <= tested <= |t.pools| && t.Valid() && Rotation.Ok(QuotaView(t))
      invariant Rotation.Scan(QuotaView(t), |t.pools| - tested, workable, t.failOnly, first)
             == Rotation.Scan(old(QuotaView(t)), |t.pools|, workable, t.failOnly, first)
    {
      Rotation.ScanStep(QuotaView(t), |t.pools| - tested, workable, t.failOnly, first);
      found := TestOne(t, workable, first);
      if found.Some? {
        return;
      }
      tested := tested + 1;
    }
    Rotation.ScanStep(QuotaView(t), 0, workable, t.failOnly, first);
    found := None;
  }

  // Charge the pool where the rotation stands; return it if it had quota and is workable, else pass over it.
  method TestOne(t: PoolTable, ghost workable: seq<bool>, ghost first: int) returns (found: Option<Pool>)
    requires t.Valid() && Rotation.Ok(QuotaView(t)) && |t.pools| > 0
    requires workable == Workable(t.pools) && first == First(t.prios)
    modifies t`rotatingPool, t`used, t.pools`quotaUsed
    ensures t.Valid() && Rotation.Ok(QuotaView(t))
    ensures var v := old(QuotaView(t));
            if v.used[v.rot] < v.gcds[v.rot] && workable[v.rot]
            then found == Some(t.pools[v.rot]) && QuotaView(t) == Rotation.Charged(v)
            else found == None && QuotaView(t) == Rotation.Skipped(v, t.failOnly, first)
  {
    hide PriorityOrder.Permutation;
    hide PoolTable.QuotasInRange;
    hide PoolTable.Recorded;
    hide First;
    hide Workable;
    FirstIsFirst(t);
    WorkableAt(t, t.rotatingPool);
    ghost var v := QuotaView(t);
    var pool, hadQuota := ChargeNext(t);
    if hadQuota && !pool.Unworkable() {
      return Some(pool);
    }
    PassOver(t, hadQuota && t.failOnly, first);
    found := None;
    assert QuotaView(t) == Rotation.Skipped(v, t.failOnly, first);
  }

  lemma WorkableAt(t: PoolTable, i: int)
    requires 0 <= i < |t.pools|
    ensures Workable(t.pools)[i] == !t.pools[i].Unworkable()
  {
  }

  lemma FirstIsFirst(t: PoolTable)
    requires t.Valid() && |t.pools| > 0
    ensures |t.prios| == |t.used| == |t.gcds| == |t.pools|
    ensures var i := First(t.prios); 0 <= i < |t.pools| && t.prios[i] == 0
  {
  }

  // One use more for the pool where the rotation stands.
  method ChargeNext(t: PoolTable) returns (pool: Pool, hadQuota: bool)
    requires t.Valid() && Rotation.Ok(QuotaView(t)) && |t.pools| > 0
    modifies t`used, t.pools`quotaUsed
    ensures t.Valid() && pool == t.pools[t.rotatingPool] && Rotation.Ok(QuotaView(t))
    ensures hadQuota == (old(t.used)[t.rotatingPool] < t.gcds[t.rotatingPool])
    ensures QuotaView(t) == Rotation.Charged(old(QuotaView(t)))
  {
    pool := t.pools[t.rotatingPool];
    assert pool.quotaUsed == t.used[t.rotatingPool] && pool.quotaGcd == t.gcds[t.rotatingPool];
    assert pool.poolNo == t.rotatingPool;
    hadQuota := pool.quotaUsed < pool.quotaGcd;
    hide PriorityOrder.Permutation;
    AddUse(t, pool, 1);
  }

  // The rotation moves on, in fail-only mode with a refund.
  method PassOver(t: PoolTable, refund: bool, ghost first: int)
    requires t.Valid() && Rotation.Ok(QuotaView(t)) && 0 <= first < |t.pools| && t.prios[first] == 0
    modifies t`rotatingPool, t`used, t.pools`quotaUsed
    ensures t.Valid() && t.gcds == old(t.gcds) && t.rotatingPool == Rotation.Advance(old(t.rotatingPool), |t.pools|)
    ensures t.used == if refund then old(t.used)[first := old(t.used)[first] - 1] else old(t.used)
  {
    hide PriorityOrder.Permutation;
    hide PoolTable.QuotasInRange;
    hide PoolTable.Recorded;
    if refund {
      Refund(t, first);
    }
    AdvanceRotation(t);
  }

  // Unused quota goes to the pool of priority 0.
  method Refund(t: PoolTable, ghost first: int)
    requires t.Valid() && 0 <= first < |t.pools| && t.prios[first] == 0
    modifies t`used, t.pools`quotaUsed
    ensures t.Valid() && t.used == old(t.used)[first := old(t.used)[first] - 1]
  {
    var head := t.PriorityPool(0);
    SameFirst(t, head, first);
    AddUse(t, head, -1);
  }

  method AddUse(t: PoolTable, pool: Pool, amount: int)
    requires t.Valid() && pool in t.pools
    modifies t`used, t.pools`quotaUsed
    ensures t.Valid() && t.used == old(t.used)[pool.poolNo := old(t.used)[pool.poolNo] + amount]
  {
    hide PriorityOrder.Permutation;
    pool.quotaUsed := pool.quotaUsed + amount;
    t.used := t.used[pool.poolNo := pool.quotaUsed];
  }

  lemma SameFirst(t: PoolTable, p: Pool, first: int)
    requires t.Valid() && p in t.pools && p.prio == 0 && 0 <= first < |t.pools| && t.prios[first] == 0
    ensures p == t.pools[first]
  {
    assert t.prios[p.poolNo] == 0;
  }
}
