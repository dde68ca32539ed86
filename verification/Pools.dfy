// The pool list: adding, removing, switching and reprioritising pools, and quota scaling.
module Pools {
  import opened PoolTypes
  import opened PriorityOrder
  import Sequences
  import Q = QuotaScale

  const ULONG_MAX: int := Q.TWO64 - 1

  // What poolpriority and poolquota answer.
  datatype Answer =
    Done | NoPool | MissingId | MissingComma | InvalidId(id: int) | DuplicateId(id: int) | NegativeQuota(quota: int)

  // The first thing wrong with a list of pool ids, if any.
  function CheckIds(n: nat, list: seq<int>): Answer {
    if list == [] then Done
    else
      var before, id := CheckIds(n, list[..|list| - 1]), list[|list| - 1];
      if before != Done then before
      else if id < 0 || id >= n then InvalidId(id)
      else if id in list[..|list| - 1] then DuplicateId(id)
      else Done
  }

  lemma {:induction false} CheckIdsAccepts(n: nat, list: seq<int>)
    ensures CheckIds(n, list) == Done <==> Acceptable(n, list)
  {
    if list != [] {
      var m := |list| - 1;
      CheckIdsAccepts(n, list[..m]);
      if Acceptable(n, list) {
        assert list[m] !in list[..m];
      }
      if CheckIds(n, list) == Done {
        forall k, l | 0 <= k < l < |list|
          ensures list[k] != list[l]
        {
          if l == m {
            assert list[k] in list[..m];
          } else {
            assert list[..m][k] != list[..m][l];
          }
        }
        forall k | 0 <= k < |list|
          ensures 0 <= list[k] < n
        {
          assert k < m ==> list[..m][k] == list[k];
        }
      }
    }
  }

  lemma CheckIdsStep(n: nat, list: seq<int>, k: nat)
    requires k < |list|
    ensures CheckIds(n, list[..0]) == Done
    ensures CheckIds(n, list[..k]) == Done ==>
              CheckIds(n, list[..k + 1]) == (if list[k] < 0 || list[k] >= n then InvalidId(list[k])
                                             else if list[k] in list[..k] then DuplicateId(list[k]) else Done)
  {
    assert list[..k + 1][..k] == list[..k];
  }

  lemma {:induction false} FirstErrorStands(n: nat, list: seq<int>, k: nat)
    requires k <= |list| && CheckIds(n, list[..k]) != Done
    ensures CheckIds(n, list) == CheckIds(n, list[..k])
    decreases |list|
  {
    if k == |list| {
      assert list[..k] == list;
    } else {
      assert list[..|list| - 1][..k] == list[..k];
      FirstErrorStands(n, list[..|list| - 1], k);
    }
  }

  // Where the text up to the next comma ends.
  function CommaAt(s: string): (i: nat)
    ensures i <= |s| && (i < |s| ==> s[i] == ',') && forall k :: 0 <= k < i ==> s[k] != ','
  {
    if s == "" || s[0] == ',' then 0 else 1 + CommaAt(s[1..])
  }

  // The text before the first comma, and the text after it.
  function Field(s: string): (f: string)
    ensures ',' !in f && f <= s
    ensures if ',' in s then |f| < |s| && s[|f|] == ',' else f == s
  {
    CommaIn(s);
    s[..CommaAt(s)]
  }

  function AfterField(s: string): (rest: string)
    ensures s == if ',' in s then Field(s) + "," + rest else Field(s)
  {
    CommaIn(s);
    if CommaAt(s) < |s| then s[CommaAt(s) + 1..] else ""
  }

  lemma CommaIn(s: string)
    ensures ',' in s <==> CommaAt(s) < |s|
  {
    if CommaAt(s) == |s| {
      assert forall k :: 0 <= k < |s| ==> s[k] != ',';
    } else {
      assert s[CommaAt(s)] == ',';
    }
  }

  // The ids in a comma-separated text; a comma at its end is not followed by another id.
  function Ids(param: string, atoi: string -> int): seq<int> {
    if param == "" then []
    else
      var i := CommaAt(param);
      [atoi(param[..i])] + if i < |param| then Ids(param[i + 1..], atoi) else []
  }

  lemma CommaUnique(s: string, i: nat)
    requires i <= |s| && (i < |s| ==> s[i] == ',') && forall k :: 0 <= k < i ==> s[k] != ','
    ensures CommaAt(s) == i
  {
  }

  lemma {:induction false} IdsHead(s: string, atoi: string -> int)
    requires s != ""
    ensures Ids(s, atoi) == [atoi(s[..CommaAt(s)])] + if CommaAt(s) < |s| then Ids(s[CommaAt(s) + 1..], atoi) else []
  {
    hide CommaAt;
  }

  lemma {:induction false} IdsUnfold(s: string, atoi: string -> int, i: nat)
    requires s != "" && i <= |s| && (i < |s| ==> s[i] == ',') && forall k :: 0 <= k < i ==> s[k] != ','
    ensures Ids(s, atoi) == [atoi(s[..i])] + if i < |s| then Ids(s[i + 1..], atoi) else []
  {
    hide Ids;
    CommaUnique(s, i);
    hide CommaAt;
    IdsHead(s, atoi);
  }

  // One turn of the reading loop, which takes the text from `from` up to the comma at `to`.
  lemma {:induction false} IdsStep(param: string, atoi: string -> int, seen: seq<int>, from: nat, to: nat)
    requires from < |param| && from <= to <= |param| && (to < |param| ==> param[to] == ',')
    requires forall k :: from <= k < to ==> param[k] != ','
    requires Ids(param, atoi) == seen + Ids(param[from..], atoi)
    ensures var next := if to < |param| then to + 1 else to;
            Ids(param, atoi) == seen + [atoi(param[from..to])] + Ids(param[next..], atoi)
  {
    hide Ids;
    hide CommaAt;
    var s, next := param[from..], if to < |param| then to + 1 else to;
    Suffix(param, from, to);
    IdsUnfold(s, atoi, to - from);
    NoIdsLeft(param, atoi, to);
    var head, rest := [atoi(param[from..to])], Ids(param[next..], atoi);
    assert Ids(s, atoi) == head + rest;
    Sequences.Regroup(seen, head, rest);
  }

  lemma {:induction false} ReadTurn(param: string, atoi: string -> int, list: seq<int>, prio: nat, from: nat, to: nat)
    requires from < |param| && from <= to <= |param| && (to < |param| ==> param[to] == ',')
    requires forall k :: from <= k < to ==> param[k] != ','
    requires list == Ids(param, atoi) && prio <= |list| && list == list[..prio] + Ids(param[from..], atoi)
    ensures var next := if to < |param| then to + 1 else to;
            && prio < |list| && list[prio] == atoi(param[from..to])
            && list == list[..prio + 1] + Ids(param[next..], atoi)
  {
    hide Ids;
    IdsStep(param, atoi, list[..prio], from, to);
    NextId(list, prio, atoi(param[from..to]), Ids(param[if to < |param| then to + 1 else to..], atoi));
  }

  lemma {:induction false} NextId(list: seq<int>, k: nat, i: int, rest: seq<int>)
    requires k <= |list| && list == list[..k] + [i] + rest
    ensures k < |list| && list[k] == i && list == list[..k + 1] + rest
  {
  }

  lemma {:induction false} Suffix(param: string, from: nat, to: nat)
    requires from <= to <= |param|
    ensures param[from..][..to - from] == param[from..to]
    ensures to < |param| ==> param[from..][to - from + 1..] == param[to + 1..]
  {
  }

  lemma NoIdsLeft(param: string, atoi: string -> int, next: nat)
    ensures next == |param| ==> Ids(param[next..], atoi) == []
  {
  }

  // What has been read of the list: the first k ids, all of them good.
  ghost predicate HasRead(n: nat, list: seq<int>, k: nat, changed: seq<bool>, prios: seq<int>) {
    && k <= |list| && |changed| == |prios| == n
    && CheckIds(n, list[..k]) == Done
    && (forall i :: 0 <= i < n ==> (changed[i] <==> i in list[..k]))
    && (forall l :: 0 <= l < k ==> 0 <= list[l] < n && prios[list[l]] == l)
  }

  lemma ReadNothing(n: nat, list: seq<int>, changed: seq<bool>, prios: seq<int>)
    requires |changed| == |prios| == n && forall i :: 0 <= i < n ==> !changed[i]
    ensures HasRead(n, list, 0, changed, prios)
  {
  }

  // One more id: it is wrong, and then it is the answer for the whole list, or it is noted.
  lemma ReadOne(n: nat, list: seq<int>, k: nat, changed: seq<bool>, prios: seq<int>)
    requires HasRead(n, list, k, changed, prios) && k < |list|
    ensures var i := list[k];
            if i < 0 || i >= n then CheckIds(n, list) == InvalidId(i)
            else if changed[i] then CheckIds(n, list) == DuplicateId(i)
            else HasRead(n, list, k + 1, changed[i := true], prios[i := k])
  {
    CheckIdsStep(n, list, k);
    hide CheckIds;
    var i := list[k];
    if i < 0 || i >= n || changed[i] {
      FirstErrorStands(n, list, k + 1);
    } else {
      assert list[..k + 1] == list[..k] + [i];
      assert forall l :: 0 <= l < k ==> list[l] in list[..k];
    }
  }

  lemma ReadAll(n: nat, list: seq<int>, changed: seq<bool>, prios: seq<int>)
    requires HasRead(n, list, |list|, changed, prios)
    ensures CheckIds(n, list) == Done
    ensures forall i :: 0 <= i < n ==> (changed[i] <==> i in list) && (i in list ==> prios[i] == Position(list, i))
  {
    assert list[..|list|] == list;
    hide CheckIds;
  }

  // The state of poolpriority once every unlisted pool of old priority below pr is renumbered.
  ghost predicate Appending(p: seq<int>, list: seq<int>, pr: int, prio: int, changed: seq<bool>, prios: seq<int>) {
    && |prios| == |changed| == |p|
    && prio == |list| + |UnlistedBelow(p, list, pr)|
    && (forall i :: 0 <= i < |p| ==> (changed[i] <==> i in list || p[i] < pr))
    && (forall i :: 0 <= i < |p| ==> prios[i] == if changed[i] then Reordered(p, list)[i] else p[i])
  }

  lemma AppendStart(p: seq<int>, list: seq<int>, changed: seq<bool>, prios: seq<int>)
    requires Permutation(p) && |prios| == |changed| == |p|
    requires forall i :: 0 <= i < |p| ==> (changed[i] <==> i in list)
    requires forall i :: 0 <= i < |p| ==> prios[i] == if i in list then Position(list, i) else p[i]
    ensures Appending(p, list, 0, |list|, changed, prios)
  {
    assert UnlistedBelow(p, list, 0) == {};
  }

  // The pool i found for number pr, or none (i == |p|).
  lemma AppendStep(p: seq<int>, list: seq<int>, pr: int, prio: int, changed: seq<bool>, prios: seq<int>, i: nat)
    requires Permutation(p) && Appending(p, list, pr, prio, changed, prios) && i <= |p|
    requires i < |p| ==> !changed[i] && prios[i] == pr
    requires forall j :: 0 <= j < i ==> changed[j] || prios[j] != pr
    ensures if i < |p| then Appending(p, list, pr + 1, prio + 1, changed[i := true], prios[i := prio])
            else Appending(p, list, pr + 1, prio, changed, prios)
  {
    hide Reordered;
    hide Permutation;
    if i < |p| {
      UnlistedBelowStep(p, list, i);
      ReorderedUnlisted(p, list, i);
    } else {
      assert UnlistedBelow(p, list, pr + 1) == UnlistedBelow(p, list, pr);
    }
  }

  lemma ReorderedUnlisted(p: seq<int>, list: seq<int>, i: nat)
    requires i < |p| && i !in list
    ensures Reordered(p, list)[i] == |list| + |UnlistedBelow(p, list, p[i])|
  {
  }

  lemma AppendEnd(p: seq<int>, list: seq<int>, prio: int, changed: seq<bool>, prios: seq<int>)
    requires Permutation(p) && Appending(p, list, |p|, prio, changed, prios)
    ensures prios == Reordered(p, list)
  {
    forall i | 0 <= i < |p|
      ensures prios[i] == Reordered(p, list)[i]
    {
      assert p[i] < |p|;
    }
  }

  class PoolTable {
    var pools: seq<Pool>
    var currentPool: Pool?
    var strategy: Strategy
    var failOnly: bool
    var globalQuotaGcd: int
    var rotatingPool: int

    // The prio, quota, quota_gcd and quota_used fields of the listed pools, in list order.
    ghost var prios: seq<int>
    ghost var quotas: seq<int>
    ghost var gcds: seq<int>
    ghost var used: seq<int>

    // The fields of the pools are as recorded, and pool_no is the position in the list.
    ghost predicate Recorded()
      reads this`pools, this`prios, this`quotas, this`gcds, this`used, this`currentPool,
            pools`poolNo, pools`prio, pools`quota, pools`quotaGcd, pools`quotaUsed
    {
      && |prios| == |quotas| == |gcds| == |used| == |pools|
      && (forall i :: 0 <= i < |pools| ==> pools[i].poolNo == i && pools[i].prio == prios[i])
      && (forall i :: 0 <= i < |pools| ==>
            pools[i].quota == quotas[i] && pools[i].quotaGcd == gcds[i] && pools[i].quotaUsed == used[i])
      && (currentPool != null ==> currentPool in pools)
    }

    ghost predicate QuotasInRange()
      reads this`quotas, this`globalQuotaGcd
    {
      globalQuotaGcd >= 1 && Q.NonNegative(quotas) && forall i :: 0 <= i < |quotas| ==> Q.IsInt(quotas[i])
    }

    // Besides, prio is a permutation and quota_gcd the scaled quota.
    ghost predicate Valid()
      reads this`pools, this`prios, this`quotas, this`gcds, this`used, this`currentPool,
            pools`poolNo, pools`prio, pools`quota, pools`quotaGcd, pools`quotaUsed,
            this`globalQuotaGcd
    {
      Recorded() && QuotasInRange() && Permutation(prios) && gcds == Q.Shares(quotas, globalQuotaGcd)
    }

    constructor (strategy: Strategy, failOnly: bool)
      ensures Valid() && pools == [] && currentPool == null
    {
      pools, currentPool := [], null;
      this.strategy, this.failOnly := strategy, failOnly;
      globalQuotaGcd, rotatingPool := 1, 0;
      prios, quotas, gcds, used := [], [], [], [];
    }

    // ---------- quotas ----------

    method AdjustQuotaGcd()
      requires Recorded() && QuotasInRange()
      modifies this`globalQuotaGcd, this`gcds, this`used, pools`quotaUsed, pools`quotaGcd
      ensures Recorded() && QuotasInRange()
      ensures globalQuotaGcd == Q.Divisor(quotas) && gcds == Q.Shares(quotas, globalQuotaGcd)
      ensures used == Q.RescaledAll(old(used), old(globalQuotaGcd), globalQuotaGcd)
    {
      hide Q.Rescaled;
      hide Q.Share;
      hide Q.Divisor;
      hide Q.IsInt;
      hide Q.NonNegative;
      hide Recorded;
      RecordedSizes();
      var gcd := FindDivisor();
      var i := 0;
      while i < |pools|
        invariant 0 <= i <= |pools| == |used| == |gcds| == |quotas| && globalQuotaGcd == old(globalQuotaGcd)
        invariant Recorded()
        invariant forall k :: i <= k < |pools| ==> used[k] == old(used)[k]
        invariant forall k :: 0 <= k < i ==> used[k] == Q.Rescaled(old(used)[k], globalQuotaGcd, gcd)
        invariant forall k :: 0 <= k < i ==> gcds[k] == Q.Share(quotas[k], gcd)
      {
        RescaleAt(i, gcd);
        i := i + 1;
      }
      globalQuotaGcd := gcd;
      assert gcds == Q.Shares(quotas, gcd);
      assert used == Q.RescaledAll(old(used), old(globalQuotaGcd), gcd);
    }

    lemma RecordedSizes()
      requires Recorded()
      ensures |prios| == |quotas| == |gcds| == |used| == |pools|
    {
    }

    method RescaleAt(i: int, gcd: int)
      requires Recorded() && 0 <= i < |pools| && gcd >= 1
      modifies this`gcds, this`used, pools`quotaUsed, pools`quotaGcd
      ensures Recorded()
      ensures used == old(used)[i := Q.Rescaled(old(used)[i], globalQuotaGcd, gcd)]
      ensures gcds == old(gcds)[i := Q.Share(quotas[i], gcd)]
    {
      hide Q.Rescaled;
      hide Q.Share;
      RescalePool(pools[i], globalQuotaGcd, gcd);
      used := used[i := pools[i].quotaUsed];
      gcds := gcds[i := pools[i].quotaGcd];
    }

    static method RescalePool(pool: Pool, oldGcd: int, gcd: int)
      requires gcd >= 1
      modifies pool`quotaUsed, pool`quotaGcd
      ensures pool.quotaUsed == Q.Rescaled(old(pool.quotaUsed), oldGcd, gcd)
      ensures pool.quotaGcd == Q.Share(pool.quota, gcd)
    {
      pool.quotaUsed := Q.ToInt(Q.ToUlong(Q.ToUlong(pool.quotaUsed) * oldGcd));
      pool.quotaUsed := Q.ToInt(Q.ToUlong(pool.quotaUsed) / gcd);
      pool.quotaGcd := pool.quota / gcd;
    }

    method FindDivisor() returns (gcd: int)
      requires Recorded() && QuotasInRange()
      ensures gcd == Q.Divisor(quotas)
    {
      hide Q.Descend;
      hide Q.DescendAll;
      var lowest := FindLowest();
      if lowest == ULONG_MAX {
        return 1;
      }
      gcd := lowest;
      Q.DescendNone(quotas, lowest);
      var i := 0;
      while i < |pools|
        invariant 0 <= i <= |pools| && gcd >= 1
        invariant gcd == Q.DescendAll(quotas[..i], lowest)
      {
        Q.DescendAllStep(quotas, i, lowest);
        var quota := pools[i].quota;
        if quota != 0 {
          gcd := LowerToDivisor(quota, gcd);
        }
        i := i + 1;
      }
      assert quotas[..i] == quotas;
    }

    method FindLowest() returns (lowest: int)
      requires Recorded() && QuotasInRange()
      ensures var l := Q.Lowest(quotas); lowest == if l == 0 then ULONG_MAX else l
      ensures lowest != ULONG_MAX <==> Q.Lowest(quotas) != 0
    {
      lowest := ULONG_MAX;
      var i := 0;
      while i < |pools|
        invariant 0 <= i <= |pools|
        invariant var l := Q.Lowest(quotas[..i]);
                  Q.IsInt(l) && lowest == if l == 0 then ULONG_MAX else l
      {
        Q.LowestStep(quotas, i);
        var quota := pools[i].quota;
        assert quotas[i] == quota && Q.IsInt(quota);
        if quota != 0 && quota < lowest {
          lowest := quota;
        }
        i := i + 1;
      }
      assert quotas[..i] == quotas;
    }

    static method LowerToDivisor(quota: int, start: int) returns (gcd: int)
      requires start >= 1
      ensures gcd == Q.Descend(quota, start)
    {
      gcd := start;
      while quota % gcd != 0
        invariant 1 <= gcd <= start && Q.Descend(quota, gcd) == Q.Descend(quota, start)
        decreases gcd
      {
        assert quota % 1 == 0;
        gcd := gcd - 1;
      }
    }

    // poolquota: the text names a pool and, after a comma, its quota. A good quota is set and all quotas are
    // scaled again.
    method PoolQuota(param: string, atoi: string -> int) returns (answer: Answer)
      requires Valid() && forall s :: Q.IsInt(atoi(s))
      modifies this`globalQuotaGcd, this`quotas, this`gcds, this`used, pools`quota, pools`quotaUsed, pools`quotaGcd
      ensures Valid() && prios == old(prios)
      ensures var id, quota := atoi(Field(param)), atoi(AfterField(param));
              answer == if pools == [] then NoPool else if param == "" then MissingId
                        else if ',' !in param then MissingComma
                        else if id < 0 || id >= |pools| then InvalidId(id)
                        else if quota < 0 then NegativeQuota(quota) else Done
      ensures answer != Done ==> quotas == old(quotas) && used == old(used) && globalQuotaGcd == old(globalQuotaGcd)
      ensures answer == Done ==>
                && quotas == old(quotas)[atoi(Field(param)) := atoi(AfterField(param))]
                && globalQuotaGcd == Q.Divisor(quotas)
                && used == Q.RescaledAll(old(used), old(globalQuotaGcd), globalQuotaGcd)
    {
      hide Q.Divisor;
      hide Q.RescaledAll;
      hide Q.Shares;
      hide Permutation;
      if |pools| == 0 {
        return NoPool;
      }
      if param == "" {
        return MissingId;
      }
      var comma := CommaAt(param);
      if comma == |param| {
        CommaIn(param);
        return MissingComma;
      }
      CommaIn(param);
      var id := atoi(param[..comma]);
      if id < 0 || id >= |pools| {
        return InvalidId(id);
      }
      var quota := atoi(param[comma + 1..]);
      if quota < 0 {
        return NegativeQuota(quota);
      }
      SetQuota(pools[id], quota);
      AdjustQuotaGcd();
      answer := Done;
    }

    method SetQuota(pool: Pool, quota: int)
      requires Recorded() && QuotasInRange() && pool in pools && quota >= 0 && Q.IsInt(quota)
      modifies this`quotas, pool`quota
      ensures Recorded() && QuotasInRange() && quotas == old(quotas)[pool.poolNo := quota]
    {
      pool.quota := quota;
      quotas := quotas[pool.poolNo := quota];
    }

    method SetPrio(pool: Pool, prio: int)
      requires Recorded() && pool in pools
      modifies this`prios, pool`prio
      ensures Recorded() && pool.prio == prio && prios == old(prios)[pool.poolNo := prio]
    {
      pool.prio := prio;
      prios := prios[pool.poolNo := prio];
    }

    // ---------- adding and removing ----------

    method AddPool() returns (pool: Pool)
      requires Valid()
      modifies this`pools, this`prios, this`quotas, this`globalQuotaGcd, this`gcds, this`used,
               pools`quotaUsed, pools`quotaGcd
      ensures Valid() && fresh(pool) && pools == old(pools) + [pool]
      ensures prios == old(prios) + [|old(prios)|] && quotas == old(quotas) + [1]
      ensures globalQuotaGcd == Q.Divisor(quotas)
      ensures used == Q.RescaledAll(old(used) + [0], old(globalQuotaGcd), globalQuotaGcd)
    {
      hide Q.Divisor;
      hide Q.RescaledAll;
      hide Q.Shares;
      AddedIsPermutation(prios);
      pool := new Pool(|pools|);
      pools := pools + [pool];
      prios, quotas, gcds, used := Added(prios), quotas + [1], gcds + [0], used + [0];
      AdjustQuotaGcd();
    }

    // The last pool takes the place of the removed one.  The rotation of select_pool is not told that the
    // list got shorter.
    method RemovePool(pool: Pool)
      requires Valid() && pool in pools && pool != currentPool
      modifies this`pools, this`prios, this`quotas, this`gcds, this`used, pools`prio, pools`poolNo, pools`removed
      ensures Valid() && pool !in pools && pool.removed && pool.poolNo == |old(pools)|
      ensures var n, k := |old(pools)|, old(pool.poolNo);
              && 0 <= k < n && pools == SwapOut(old(pools), k) && prios == Removed(old(prios), k)
    {
      hide Permutation;
      PoolAt(pool);
      RecordedSizes();
      hide Recorded;
      hide SwapOut;
      ghost var k, before := pool.poolNo, prios;
      RemovedIsPermutation(prios, k);
      SharesSwapOut(quotas, k, globalQuotaGcd);
      CloseGap(pool);
      ghost var closed := prios;
      hide QuotasInRange;
      hide Q.Shares;
      TakeOut(pool);
      RemovedSwapsOut(before, closed, k);
    }

    // A listed pool is where its number says, with the priority that is recorded there.
    lemma PoolAt(pool: Pool)
      requires Recorded() && pool in pools
      ensures 0 <= pool.poolNo < |pools| == |prios| && pools[pool.poolNo] == pool
      ensures prios[pool.poolNo] == pool.prio
    {
    }

    static lemma SharesSwapOut(quotas: seq<int>, k: nat, gcd: int)
      requires gcd >= 1 && k < |quotas| && Q.NonNegative(quotas) && forall i :: 0 <= i < |quotas| ==> Q.IsInt(quotas[i])
      ensures Q.Shares(SwapOut(quotas, k), gcd) == SwapOut(Q.Shares(quotas, gcd), k)
      ensures var left := SwapOut(quotas, k);
              Q.NonNegative(left) && forall i :: 0 <= i < |left| ==> Q.IsInt(left[i])
    {
      hide Q.Share;
      hide Q.IsInt;
    }

    static lemma RemovedSwapsOut(p: seq<int>, q: seq<int>, k: nat)
      requires k < |p| == |q|
      requires forall i :: 0 <= i < |p| ==> q[i] == if p[i] > p[k] then p[i] - 1 else p[i]
      ensures SwapOut(q, k) == Removed(p, k)
    {
      assert q == seq(|p|, i requires 0 <= i < |p| => if p[i] > p[k] then p[i] - 1 else p[i]);
    }

    // Boost the priority of every pool behind this one.
    method CloseGap(pool: Pool)
      requires Recorded() && pool in pools
      modifies this`prios, pools`prio
      ensures Recorded() && |prios| == |old(prios)|
      ensures forall j :: 0 <= j < |prios| ==>
                prios[j] == if old(prios)[j] > old(pool.prio) then old(prios)[j] - 1 else old(prios)[j]
    {
      var i := 0;
      while i < |pools|
        invariant 0 <= i <= |pools| && pool.prio == old(pool.prio) && Recorded()
        invariant forall j :: 0 <= j < i ==>
                    prios[j] == if old(prios)[j] > pool.prio then old(prios)[j] - 1 else old(prios)[j]
        invariant forall j :: i <= j < |prios| ==> prios[j] == old(prios)[j]
      {
        var other := pools[i];
        if other.prio > pool.prio {
          SetPrio(other, other.prio - 1);
        }
        i := i + 1;
      }
    }

    method TakeOut(pool: Pool)
      requires Recorded() && pool in pools && pool != currentPool
      modifies this`pools, this`prios, this`quotas, this`gcds, this`used, pools`poolNo, pools`removed
      ensures Recorded() && pool !in pools && pool.removed && pool.poolNo == |old(pools)|
      ensures var n, k := |old(pools)|, old(pool.poolNo);
              && 0 <= k < n && pools == SwapOut(old(pools), k) && prios == SwapOut(old(prios), k)
              && quotas == SwapOut(old(quotas), k) && gcds == SwapOut(old(gcds), k)
    {
      ghost var k := pool.poolNo;
      PoolAt(pool);
      FieldsSwapOut(k);
      CurrentKept(pool);
      RecordedNumbers();
      hide Recorded;
      hide FieldsAre;
      hide SwapOut;
      ghost var p, q, g, u := SwapOut(prios, k), SwapOut(quotas, k), SwapOut(gcds, k), SwapOut(used, k);
      ghost var left := SwapOut(pools, k);
      assert FieldsAre(left, p, q, g, u);
      Unlist(pool);
      assert pools == left;
      prios, quotas, gcds, used := p, q, g, u;
      RecordedAgain();
    }

    // The fields of some pools, except their numbers.
    static ghost predicate FieldsAre(ps: seq<Pool>, prios: seq<int>, quotas: seq<int>, gcds: seq<int>, used: seq<int>)
      reads ps`prio, ps`quota, ps`quotaGcd, ps`quotaUsed
    {
      && |prios| == |quotas| == |gcds| == |used| == |ps|
      && (forall i :: 0 <= i < |ps| ==> ps[i].prio == prios[i] && ps[i].quota == quotas[i])
      && (forall i :: 0 <= i < |ps| ==> ps[i].quotaGcd == gcds[i] && ps[i].quotaUsed == used[i])
    }

    lemma FieldsSwapOut(k: int)
      requires Recorded() && 0 <= k < |pools|
      ensures |prios| == |quotas| == |gcds| == |used| == |pools|
      ensures FieldsAre(SwapOut(pools, k), SwapOut(prios, k), SwapOut(quotas, k), SwapOut(gcds, k), SwapOut(used, k))
    {
    }

    lemma CurrentKept(pool: Pool)
      requires Recorded() && pool in pools && pool != currentPool
      ensures 0 <= pool.poolNo < |pools| && (currentPool != null ==> currentPool in SwapOut(pools, pool.poolNo))
    {
      if currentPool != null {
        var c, left := currentPool.poolNo, SwapOut(pools, pool.poolNo);
        assert left[if c == |left| then pool.poolNo else c] == currentPool;
      }
    }

    lemma RecordedNumbers()
      requires Recorded()
      ensures forall i :: 0 <= i < |pools| ==> pools[i].poolNo == i
    {
    }

    lemma RecordedAgain()
      requires FieldsAre(pools, prios, quotas, gcds, used) && (currentPool != null ==> currentPool in pools)
      requires forall i :: 0 <= i < |pools| ==> pools[i].poolNo == i
      ensures Recorded()
    {
    }

    method Unlist(pool: Pool)
      requires pool in pools && forall i :: 0 <= i < |pools| ==> pools[i].poolNo == i
      modifies this`pools, pools`poolNo, pools`removed
      ensures 0 <= old(pool.poolNo) < |old(pools)| && pools == SwapOut(old(pools), old(pool.poolNo))
      ensures pool !in pools && pool.removed && pool.poolNo == |old(pools)|
      ensures forall i :: 0 <= i < |pools| ==> pools[i].poolNo == i
    {
      var lastPool := |pools| - 1;
      if pool.poolNo < lastPool {
        pools[lastPool].poolNo := pool.poolNo;
        pools := pools[pool.poolNo := pools[lastPool]];
      }
      pool.poolNo := lastPool + 1;
      pool.removed := true;
      pools := pools[..lastPool];
    }

    // ---------- choosing by priority ----------

    // A usable pool none is preferred to.
    ghost predicate LeastUsable(p: Pool)
      reads this`pools, pools`prio, pools`idle, pools`enabled, p`prio, p`idle, p`enabled
    {
      && p in pools && !p.idle && p.enabled == PoolEnabled
      && forall q :: q in pools && !q.idle && q.enabled == PoolEnabled ==> p.prio <= q.prio
    }

    ghost predicate SomeUsable()
      reads this`pools, pools`idle, pools`enabled
    {
      exists q :: q in pools && !q.idle && q.enabled == PoolEnabled
    }

    // The pool with the given priority.
    method PriorityPool(choice: int) returns (ret: Pool)
      requires Recorded() && Permutation(prios) && 0 <= choice < |pools|
      ensures ret in pools && ret.prio == choice
    {
      // The priorities being a permutation, the search ends before the list does.
      EveryPriorityOccurs(prios, choice);
      var i := 0;
      while i < |pools| && pools[i].prio != choice
        invariant 0 <= i <= |pools|
        invariant forall k :: 0 <= k < i ==> prios[k] != choice
      {
        i := i + 1;
      }
      ret := pools[i];
    }

    // The pool that follows `before` under the strategy, when `selected` was asked for.
    ghost predicate Chooses(selected: Pool?, before: Pool, next: Pool)
      reads this`pools, this`strategy, pools`prio, pools`idle, pools`enabled
      reads before`poolNo, next`poolNo, next`prio, next`idle, next`enabled
      reads (if selected == null then {} else {selected})`idle
    {
      && next in pools
      && if strategy == RoundRobin || strategy == Rotate then
           if selected != null && !selected.idle then next == selected
           else 0 <= before.poolNo < |pools| && NextUsable(before.poolNo, next.poolNo)
         else if SomeUsable() then LeastUsable(next) else next == before
    }

    // switch_pools. The pool returned is the one whose staged works are cleared, if any.
    method SwitchPools(selected: Pool?) returns (cleared: Pool?)
      requires Valid() && currentPool != null && (selected != null ==> selected in pools)
      modifies this`currentPool, this`prios, pools`prio, pools`lagging
      ensures Valid() && currentPool != null
      ensures prios == if selected == null then old(prios) else Fronted(old(prios), selected.poolNo)
      ensures Chooses(selected, old(currentPool), currentPool)
      ensures forall i :: 0 <= i < |pools| ==>
                pools[i].lagging == (old(pools[i].lagging) || (failOnly && pools[i] == currentPool))
      ensures cleared == if && currentPool != old(currentPool) && strategy != LoadBalance && strategy != Balance
                            && (currentPool.hasStratum || currentPool.hasGbt || failOnly)
                         then old(currentPool) else null
    {
      hide Recorded;
      hide QuotasInRange;
      hide Permutation;
      hide Q.Shares;
      hide Fronted;
      hide Chooses;
      var lastPool := currentPool;
      Switch(selected);
      cleared := Settle(lastPool);
    }

    // The new priorities and the new current pool.
    method Switch(selected: Pool?)
      requires Valid() && currentPool != null && (selected != null ==> selected in pools)
      modifies this`currentPool, this`prios, pools`prio
      ensures Valid() && currentPool in pools
      ensures prios == if selected == null then old(prios) else Fronted(old(prios), selected.poolNo)
      ensures Chooses(selected, old(currentPool), currentPool)
    {
      hide QuotasInRange;
      hide Permutation;
      hide Q.Shares;
      hide Fronted;
      hide NextUsable;
      hide SomeUsable;
      hide LeastUsable;
      if selected != null {
        MoveToFront(selected);
      }
      var next := ChoosePool(selected);
      currentPool := next;
    }

    // What follows a switch.
    method Settle(lastPool: Pool) returns (cleared: Pool?)
      requires Recorded() && currentPool != null
      modifies currentPool`lagging
      ensures forall i :: 0 <= i < |pools| ==>
                pools[i].lagging == (old(pools[i].lagging) || (failOnly && pools[i] == currentPool))
      ensures cleared == if && currentPool != lastPool && strategy != LoadBalance && strategy != Balance
                            && (currentPool.hasStratum || currentPool.hasGbt || failOnly)
                         then lastPool else null
    {
      if failOnly {
        currentPool.lagging := true;
      }
      cleared := null;
      if currentPool != lastPool && strategy != LoadBalance && strategy != Balance {
        if currentPool.LocalGen() || failOnly {
          cleared := lastPool;
        }
      }
    }

    // The pool switch_pools makes current once the priorities are settled.
    method ChoosePool(selected: Pool?) returns (next: Pool)
      requires Recorded() && Permutation(prios) && currentPool != null && (selected != null ==> selected in pools)
      ensures Chooses(selected, currentPool, next)
    {
      hide Permutation;
      hide NextUsable;
      hide SomeUsable;
      hide LeastUsable;
      if strategy == RoundRobin || strategy == Rotate {
        if selected != null && !selected.idle {
          next := selected;
        } else {
          next := NextAlive();
        }
      } else {
        next := BestPool();
      }
    }

    // Pool `to` is the first usable one after pool `from` in cyclic order, or `from` if no other is usable.
    ghost predicate NextUsable(from: int, to: int)
      reads this`pools, pools`idle, pools`enabled
      requires 0 <= from < |pools|
    {
      var n := |pools|;
      || (to == from && UnusableUpTo(from, n))
      || exists k :: && 0 < k < n && to == Sequences.Onward(from, k, n) && UnusableUpTo(from, k)
                     && !pools[to].idle && pools[to].enabled == PoolEnabled
    }

    ghost predicate UnusableUpTo(from: int, k: int)
      reads this`pools, pools`idle, pools`enabled
      requires 0 <= from < |pools| && k <= |pools|
    {
      forall j :: 0 < j < k ==>
        var q := pools[Sequences.Onward(from, j, |pools|)];
        q.idle || q.enabled != PoolEnabled
    }

    // These conditions leave no choice. A pool that is asked for and not idle is taken when the pools go in turn,
    // even if it is disabled; otherwise a usable pool is taken if there is one, and if not the old one is kept.
    lemma ChosenOnce(selected: Pool?, before: Pool, a: Pool, b: Pool)
      requires Valid() && before in pools && Chooses(selected, before, a) && Chooses(selected, before, b)
      ensures a == b
      ensures (strategy == RoundRobin || strategy == Rotate) && selected != null && !selected.idle ==> a == selected
      ensures !((strategy == RoundRobin || strategy == Rotate) && selected != null && !selected.idle) ==>
                if exists q :: q in pools && !q.idle && q.enabled == PoolEnabled
                then !a.idle && a.enabled == PoolEnabled else a == before
    {
      hide QuotasInRange;
      hide Q.Shares;
      PoolAt(before);
      PoolAt(a);
      PoolAt(b);
      if strategy == RoundRobin || strategy == Rotate {
        if selected == null || selected.idle {
          hide Recorded;
          NextOnce(before.poolNo, a.poolNo, b.poolNo);
          NextIsUsable(before.poolNo, a.poolNo);
        }
      } else if SomeUsable() {
        assert prios[a.poolNo] == prios[b.poolNo];
      }
    }

    lemma NextOnce(from: int, a: int, b: int)
      requires 0 <= from < |pools| && NextUsable(from, a) && NextUsable(from, b)
      ensures a == b
    {
    }

    lemma NextIsUsable(from: int, to: int)
      requires 0 <= from < |pools| && 0 <= to < |pools| && NextUsable(from, to)
      ensures if exists q :: q in pools && !q.idle && q.enabled == PoolEnabled
              then !pools[to].idle && pools[to].enabled == PoolEnabled else to == from
    {
      var n := |pools|;
      if q :| q in pools && !q.idle && q.enabled == PoolEnabled {
        var i :| 0 <= i < n && pools[i] == q;
        if to == from && i != from {
          assert Sequences.Onward(from, if i > from then i - from else i - from + n, n) == i;
        }
      }
    }

    method MoveToFront(selected: Pool)
      requires Valid() && selected in pools
      modifies this`prios, pools`prio
      ensures Valid() && prios == Fronted(old(prios), selected.poolNo)
    {
      hide Q.Shares;
      hide QuotasInRange;
      ghost var before, k := prios, selected.poolNo;
      FrontedIsPermutation(before, k);
      if selected.prio != 0 {
        hide Permutation;
        hide Fronted;
        MoveDown(selected);
        ShiftedIsFronted(before, prios, k);
        SetPrio(selected, 0);
      } else {
        AlreadyFirst(before, k);
      }
    }

    // Every pool preferred to this one moves down by one.
    method MoveDown(selected: Pool)
      requires Recorded() && selected in pools
      modifies this`prios, pools`prio
      ensures Recorded() && |prios| == |old(prios)|
      ensures forall j :: 0 <= j < |prios| ==>
                prios[j] == if old(prios)[j] < old(selected.prio) then old(prios)[j] + 1 else old(prios)[j]
    {
      var i := 0;
      while i < |pools|
        invariant 0 <= i <= |pools| && selected.prio == old(selected.prio) && Recorded()
        invariant forall j :: 0 <= j < i ==>
                    prios[j] == if old(prios)[j] < selected.prio then old(prios)[j] + 1 else old(prios)[j]
        invariant forall j :: i <= j < |prios| ==> prios[j] == old(prios)[j]
      {
        var pool := pools[i];
        if pool.prio < selected.prio {
          SetPrio(pool, pool.prio + 1);
        }
        i := i + 1;
      }
    }

    // The usable pool of least priority number, or the current one.
    method BestPool() returns (best: Pool)
      requires Recorded() && Permutation(prios) && currentPool != null
      ensures best in pools
      ensures if SomeUsable() then LeastUsable(best) else best == currentPool
    {
      best := currentPool;
      var i := 0;
      while i < |pools|
        invariant 0 <= i <= |pools| && best == currentPool
        invariant forall q :: q in pools && !q.Unusable() ==> i <= q.prio < |pools|
      {
        var pool := PriorityPool(i);
        if !pool.Unusable() {
          return pool;
        }
        forall q | q in pools && !q.Unusable()
          ensures q.prio != i
        {
          assert prios[q.poolNo] == q.prio && prios[pool.poolNo] == pool.prio;
        }
        i := i + 1;
      }
    }

    method NextAlive() returns (next: Pool)
      requires Recorded() && currentPool != null
      ensures next in pools && NextUsable(currentPool.poolNo, next.poolNo)
    {
      var n, start := |pools|, currentPool.poolNo;
      var nextPool := start;
      var i := 1;
      while i < n
        invariant 1 <= i && (i <= n || n == 1)
        invariant nextPool == Sequences.Onward(start, i - 1, n)
        invariant UnusableUpTo(start, if i <= n then i else n)
      {
        nextPool := nextPool + 1;
        if nextPool >= n {
          nextPool := 0;
        }
        assert nextPool == Sequences.Onward(start, i, n);
        if !pools[nextPool].Unusable() {
          return pools[nextPool];
        }
        i := i + 1;
      }
      next := currentPool;
    }

    // ---------- poolpriority ----------

    // Reorder the pools by a list of ids; a bad list changes nothing.
    method PoolPriority(param: string, atoi: string -> int) returns (answer: Answer)
      requires Valid() && (pools != [] ==> currentPool != null)
      modifies this`currentPool, this`prios, pools`prio, pools`lagging
      ensures Valid()
      ensures answer == if pools == [] then NoPool else if param == "" then MissingId
                        else CheckIds(|pools|, Ids(param, atoi))
      ensures answer != Done ==> prios == old(prios) && currentPool == old(currentPool)
      ensures answer == Done ==>
                Acceptable(|pools|, Ids(param, atoi)) && prios == Reordered(old(prios), Ids(param, atoi))
      ensures answer == Done && old(currentPool).prio == 0 ==> currentPool == old(currentPool)
      ensures answer == Done && old(currentPool).prio != 0 ==>
                currentPool != null && Chooses(null, old(currentPool), currentPool)
    {
      hide Reordered;
      hide Permutation;
      hide Appending;
      hide Q.Shares;
      hide Chooses;
      if |pools| == 0 {
        return NoPool;
      }
      if |param| == 0 {
        return MissingId;
      }
      answer := Renumber(param, atoi, Ids(param, atoi));
      if answer != Done {
        return;
      }
      if currentPool.prio != 0 {
        var cleared := SwitchPools(null);
      }
    }

    method Renumber(param: string, atoi: string -> int, ghost list: seq<int>) returns (answer: Answer)
      requires Valid() && list == Ids(param, atoi)
      modifies this`prios, pools`prio
      ensures Valid() && answer == CheckIds(|pools|, list)
      ensures answer != Done ==> prios == old(prios)
      ensures answer == Done ==> Acceptable(|pools|, list) && prios == Reordered(old(prios), list)
    {
      hide Reordered;
      hide Permutation;
      hide Appending;
      hide Q.Shares;
      hide CheckIds;
      hide Acceptable;
      hide Position;
      hide QuotasInRange;
      var poolsChanged := new bool[|pools|](_ => false);
      var newPrio := new int[|pools|](_ => 0);
      var prio;
      answer, prio := ReadIds(|pools|, param, atoi, list, poolsChanged, newPrio);
      if answer != Done {
        return;
      }
      CheckIdsAccepts(|pools|, list);
      AssignAll(list, prio, poolsChanged, newPrio);
    }

    // Only if there are no errors: the listed pools get their new numbers, then the others.
    method AssignAll(ghost list: seq<int>, prio: nat, poolsChanged: array<bool>, newPrio: array<int>)
      requires Valid() && Acceptable(|pools|, list) && prio == |list|
      requires poolsChanged.Length == newPrio.Length == |pools|
      requires forall i :: 0 <= i < |pools| ==>
                 (poolsChanged[i] <==> i in list) && (i in list ==> newPrio[i] == Position(list, i))
      modifies this`prios, pools`prio, poolsChanged
      ensures Valid() && prios == Reordered(old(prios), list)
    {
      hide Reordered;
      hide Permutation;
      hide Appending;
      hide Q.Shares;
      hide Acceptable;
      hide Position;
      hide QuotasInRange;
      RecordedSizes();
      hide Recorded;
      ReorderedIsPermutation(prios, list);
      AssignListed(poolsChanged, newPrio);
      AppendStart(old(prios), list, poolsChanged[..], prios);
      AppendUnlisted(old(prios), list, prio, poolsChanged);
    }

    // Mark the listed pools and note their new priorities.
    static method ReadIds(n: nat, param: string, atoi: string -> int, ghost list: seq<int>,
                          poolsChanged: array<bool>, newPrio: array<int>)
      returns (answer: Answer, prio: nat)
      requires list == Ids(param, atoi)
      requires poolsChanged.Length == newPrio.Length == n && forall i :: 0 <= i < n ==> !poolsChanged[i]
      modifies poolsChanged, newPrio
      ensures answer == CheckIds(n, list)
      ensures answer == Done ==> prio == |list| && forall i :: 0 <= i < n ==>
                (poolsChanged[i] <==> i in list) && (i in list ==> newPrio[i] == Position(list, i))
    {
      hide CheckIds;
      hide Ids;
      hide HasRead;
      hide Position;
      prio := 0;
      ReadNothing(n, list, poolsChanged[..], newPrio[..]);
      var next := 0;
      assert param[0..] == param && list[..0] == [];
      while next < |param|
        invariant next <= |param| && prio <= |list| && list == list[..prio] + Ids(param[next..], atoi)
        invariant HasRead(n, list, prio, poolsChanged[..], newPrio[..])
      {
        var ptr := next;
        next := NextComma(param, ptr);
        var i := atoi(param[ptr..next]);
        ReadTurn(param, atoi, list, prio, ptr, next);
        if next < |param| {
          next := next + 1;
        }
        answer := NoteId(n, i, list, prio, poolsChanged, newPrio);
        if answer != Done {
          return;
        }
        prio := prio + 1;
      }
      NoIdsLeft(param, atoi, next);
      assert prio == |list|;
      ReadAll(n, list, poolsChanged[..], newPrio[..]);
      answer := Done;
    }

    // Check one id and note its new number.
    static method NoteId(n: nat, i: int, ghost list: seq<int>, prio: nat, poolsChanged: array<bool>,
                         newPrio: array<int>)
      returns (answer: Answer)
      requires HasRead(n, list, prio, poolsChanged[..], newPrio[..]) && prio < |list| && list[prio] == i
      modifies poolsChanged, newPrio
      ensures answer == Done ==> HasRead(n, list, prio + 1, poolsChanged[..], newPrio[..])
      ensures answer != Done ==> answer == CheckIds(n, list)
    {
      ReadOne(n, list, prio, poolsChanged[..], newPrio[..]);
      ReadSizes(n, list, prio, poolsChanged[..], newPrio[..]);
      hide HasRead;
      hide CheckIds;
      if i < 0 || i >= n {
        return InvalidId(i);
      }
      if poolsChanged[i] {
        return DuplicateId(i);
      }
      ghost var changed, prios := poolsChanged[..], newPrio[..];
      poolsChanged[i] := true;
      newPrio[i] := prio;
      assert poolsChanged[..] == changed[i := true] && newPrio[..] == prios[i := prio];
      answer := Done;
    }

    static lemma ReadSizes(n: nat, list: seq<int>, k: nat, changed: seq<bool>, prios: seq<int>)
      requires HasRead(n, list, k, changed, prios)
      ensures |changed| == |prios| == n
    {
    }

    // strchr for a comma, or the end of the text.
    static method NextComma(s: string, from: nat) returns (i: nat)
      requires from <= |s|
      ensures from <= i <= |s| && (i < |s| ==> s[i] == ',') && forall k :: from <= k < i ==> s[k] != ','
    {
      i := from;
      while i < |s| && s[i] != ','
        invariant from <= i <= |s| && forall k :: from <= k < i ==> s[k] != ','
      {
        i := i + 1;
      }
    }

    method AssignListed(poolsChanged: array<bool>, newPrio: array<int>)
      requires Recorded() && poolsChanged.Length == newPrio.Length == |pools|
      modifies this`prios, pools`prio
      ensures Recorded() && |prios| == |old(prios)|
      ensures forall i :: 0 <= i < |prios| ==> prios[i] == if poolsChanged[i] then newPrio[i] else old(prios)[i]
    {
      var i := 0;
      while i < |pools|
        invariant 0 <= i <= |pools| && Recorded()
        invariant forall j :: 0 <= j < i ==> prios[j] == if poolsChanged[j] then newPrio[j] else old(prios)[j]
        invariant forall j :: i <= j < |prios| ==> prios[j] == old(prios)[j]
      {
        if poolsChanged[i] {
          SetPrio(pools[i], newPrio[i]);
        }
        i := i + 1;
      }
    }

    // Cycle through the unlisted pools in priority order and append them; p is the old numbering.
    method AppendUnlisted(ghost p: seq<int>, ghost list: seq<int>, start: nat, poolsChanged: array<bool>)
      requires Recorded() && start == |list| && poolsChanged.Length == |pools| == |p| && Permutation(p)
      requires Appending(p, list, 0, |list|, poolsChanged[..], prios)
      modifies this`prios, pools`prio, poolsChanged
      ensures Recorded() && prios == Reordered(p, list)
    {
      hide Appending;
      hide Permutation;
      hide Reordered;
      var prio, pr := start, 0;
      while pr < |pools|
        invariant 0 <= pr <= |pools| && Recorded()
        invariant Appending(p, list, pr, prio, poolsChanged[..], prios)
      {
        var i := FindUnchanged(pr, poolsChanged);
        ghost var changed := poolsChanged[..];
        AppendStep(p, list, pr, prio, changed, prios, i);
        if i < |pools| {
          SetPrio(pools[i], prio);
          prio := prio + 1;
          poolsChanged[i] := true;
          assert poolsChanged[..] == changed[i := true];
        }
        pr := pr + 1;
      }
      AppendEnd(p, list, prio, poolsChanged[..], prios);
    }

    method FindUnchanged(pr: int, poolsChanged: array<bool>) returns (i: int)
      requires Recorded() && poolsChanged.Length == |pools|
      ensures 0 <= i <= |pools|
      ensures i < |pools| ==> !poolsChanged[i] && prios[i] == pr
      ensures forall j :: 0 <= j < i ==> poolsChanged[j] || prios[j] != pr
    {
      i := 0;
      while i < |pools|
        invariant 0 <= i <= |pools|
        invariant forall j :: 0 <= j < i ==> poolsChanged[j] || prios[j] != pr
      {
        if !poolsChanged[i] && pools[i].prio == pr {
          return;
        }
        i := i + 1;
      }
    }
  }
}
