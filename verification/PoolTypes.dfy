// struct pool and the globals of the pool list.
module PoolTypes {

  datatype PoolState = PoolDisabled | PoolEnabled | PoolRejecting

  datatype Strategy = Failover | RoundRobin | Rotate | LoadBalance | Balance

  class Pool {
    var poolNo: int
    var prio: int
    var quota: int
    var quotaGcd: int
    var quotaUsed: int
    var shares: int
    var idle: bool
    var enabled: PoolState
    var hasStratum: bool
    var stratumActive: bool
    var hasGbt: bool
    var lagging: bool
    var removed: bool

    constructor (poolNo: int)
      ensures this.poolNo == poolNo && prio == poolNo && quota == 1
      ensures quotaGcd == 0 && quotaUsed == 0 && shares == 0
      ensures !idle && enabled == PoolDisabled && !hasStratum && !stratumActive && !hasGbt && !lagging && !removed
    {
      this.poolNo, prio, quota := poolNo, poolNo, 1;
      quotaGcd, quotaUsed, shares := 0, 0, 0;
      idle, enabled, removed := false, PoolDisabled, false;
      hasStratum, stratumActive, hasGbt, lagging := false, false, false, false;
    }

    // pool_localgen
    predicate LocalGen()
      reads this`hasStratum, this`hasGbt
    {
      hasStratum || hasGbt
    }

    // pool_unusable
    predicate Unusable()
      reads this`idle, this`enabled
    {
      idle || enabled != PoolEnabled
    }

    // pool_unworkable
    predicate Unworkable()
      reads this`idle, this`enabled, this`hasStratum, this`stratumActive
    {
      idle || enabled != PoolEnabled || (hasStratum && !stratumActive)
    }
  }
}
