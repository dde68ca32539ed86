// The order in which select_pool serves the pools of a round, and what that means for their quotas.
module RoundOrder {
  import opened Wrappers
  import opened Rotation
  import Q = QuotaScale
  import Sequences

  // Going round the list from behind position `rot`, which comes last, pool i is met before pool j.
  ghost predicate Before(rot: int, i: int, j: int) {
    if i > rot then j > i || j <= rot else i < j <= rot
  }

  lemma BeforeIsCloser(rot: int, i: int, j: int, n: nat)
    requires 0 <= rot < n && 0 <= i < n && 0 <= j < n
    ensures var next := if rot + 1 == n then 0 else rot + 1;
            Before(rot, i, j) <==> Distance(next, i, n) < Distance(next, j, n)
  {
  }

  lemma CloserAfter(rot: int, a: int, i: int, j: int, n: nat)
    requires 0 <= rot < n && 0 <= a < n && 0 <= i < n && 0 <= j < n
    requires !Before(rot, i, a) && !Before(rot, j, a) && Before(rot, i, j)
    ensures Distance(a, i, n) < Distance(a, j, n)
  {
  }

  lemma BeforeIsTotal(rot: int, i: int, j: int)
    ensures Before(rot, i, j) || Before(rot, j, i) || i == j
  {
  }

  lemma BeforeComposes(rot: int, i: int, j: int, k: int)
    requires (i == j || Before(rot, i, j)) && (j == k || Before(rot, j, k))
    ensures i == k || Before(rot, i, k)
  {
  }

  // ---------- where a round starts ----------

  // A workable pool with a share of its own or, for pool `first` in fail-only mode, with that of an unworkable
  // pool that is met before it.
  ghost predicate Serves(v: View, workable: seq<bool>, failOnly: bool, first: int, i: int)
    requires Ok(v) && |workable| == |v.used| && 0 <= i < |v.used|
  {
    workable[i] && (v.gcds[i] > 0 || (failOnly && i == first && Gives(v, workable, i)))
  }

  ghost predicate Gives(v: View, workable: seq<bool>, i: int)
    requires Ok(v) && |workable| == |v.used|
  {
    exists j :: 0 <= j < |v.used| && Before(v.rot, j, i) && v.gcds[j] > 0 && !workable[j]
  }

  // When no quota is left, the call that resets returns the first pool that can be served, going round from
  // behind the pool where the rotation stood, which comes last. The rotation then stands there, the pools met
  // up to it have been used once and the others not at all.
  lemma ResetMovesOn(v: View, workable: seq<bool>, failOnly: bool, first: int)
    requires Ok(v) && |workable| == |v.used| && 0 <= first < |v.used| && !AnyQuota(v)
    ensures var n, (u, choice) := |v.used|, Select(v, workable, failOnly, first);
            && (choice.Some? <==> exists i :: 0 <= i < n && Serves(v, workable, failOnly, first, i))
            && (choice.Some? ==>
                  && Serves(v, workable, failOnly, first, choice.value) && u.rot == choice.value
                  && forall i :: 0 <= i < n && i != choice.value && Serves(v, workable, failOnly, first, i) ==>
                       Before(v.rot, choice.value, i))
            && (choice.None? ==> u.rot == if v.rot + 1 == n then 0 else v.rot + 1)
            && forall i :: 0 <= i < n && (failOnly ==> i != first) ==>
                 u.used[i] == if choice.None? || i == choice.value || Before(v.rot, i, choice.value) then 1 else 0
  {
    hide Scan;
    hide Serves;
    hide Servable;
    hide Before;
    hide Distance;
    var n, r := |v.used|, Reset(v);
    var (u, choice) := Select(v, workable, failOnly, first);
    SelectFindsWorkable(v, workable, failOnly, first);
    ScanOutcome(r, n, workable, failOnly, first);
    forall i | 0 <= i < n
      ensures Servable(r, workable, failOnly, first, i) <==> Serves(v, workable, failOnly, first, i)
    {
      ServableAfterReset(v, workable, failOnly, first, i);
    }
    if choice.Some? {
      forall i | 0 <= i < n
        ensures Before(v.rot, i, choice.value) <==> Distance(r.rot, i, n) < Distance(r.rot, choice.value, n)
        ensures i != choice.value ==> Before(v.rot, i, choice.value) || Before(v.rot, choice.value, i)
      {
        BeforeIsCloser(v.rot, i, choice.value, n);
        BeforeIsTotal(v.rot, i, choice.value);
      }
    }
    OutcomeAfterReset(v, Refunds(r, n, workable, failOnly, first), failOnly, first, u, choice);
    if !failOnly {
      NoneRefunded(r, n, workable, first);
    }
  }

  lemma OutcomeAfterReset(v: View, refunds: nat, failOnly: bool, first: int, u: View, choice: Option<int>)
    requires Ok(v) && |v.used| == |u.used| && Outcome(Reset(v), |v.used|, refunds, first, u, choice)
    ensures choice.Some? ==> u.rot == choice.value
    ensures choice.None? ==> u.rot == if v.rot + 1 == |v.used| then 0 else v.rot + 1
    ensures forall i :: 0 <= i < |v.used| ==>
              u.used[i] == (if choice.None? || i == choice.value || Before(v.rot, i, choice.value) then 1 else 0)
                           - (if i == first then refunds else 0)
  {
  }

  lemma ServableAfterReset(v: View, workable: seq<bool>, failOnly: bool, first: int, i: int)
    requires Ok(v) && |workable| == |v.used| && 0 <= first < |v.used| && 0 <= i < |v.used|
    ensures Servable(Reset(v), workable, failOnly, first, i) <==> Serves(v, workable, failOnly, first, i)
  {
    var n, r := |v.used|, Reset(v);
    var d := Distance(r.rot, i, n);
    if RefundsWithin(r, workable, d) > 0 {
      var j := Refunder(r, workable, d);
      BeforeIsCloser(v.rot, j, i, n);
    }
    if Gives(v, workable, i) {
      var j :| 0 <= j < n && Before(v.rot, j, i) && v.gcds[j] > 0 && !workable[j];
      BeforeIsCloser(v.rot, j, i, n);
      RefundsCount(r, workable, d, j);
    }
  }

  // A refund comes from an unworkable pool with quota.
  lemma {:induction false} Refunder(v: View, workable: seq<bool>, d: nat) returns (j: int)
    requires Ok(v) && |workable| == |v.used| && d <= |v.used| && RefundsWithin(v, workable, d) > 0
    ensures 0 <= j < |v.used| && Distance(v.rot, j, |v.used|) < d && HasQuota(v, j) && !workable[j]
    decreases d
  {
    j := Sequences.Onward(v.rot, d - 1, |v.used|);
    if !(HasQuota(v, j) && !workable[j]) {
      j := Refunder(v, workable, d - 1);
    }
  }

  // ---------- the order within a round ----------

  // Calls have returned these pools in order round the list, the rotation stands at the last one, and the pools
  // met before that have used their quota up.
  ghost predicate InOrder(rot: int, results: seq<Option<int>>, u: View)
    requires Ok(u)
  {
    && results != [] && results[|results| - 1] == Some(u.rot)
    && (forall k :: 0 <= k < |results| ==> results[k].Some? && 0 <= results[k].value < |u.used|)
    && (forall k, l :: 0 <= k < l < |results| ==>
          results[k] == results[l] || Before(rot, results[k].value, results[l].value))
    && (forall i :: 0 <= i < |u.used| && Before(rot, i, u.rot) ==> !HasQuota(u, i))
  }

  // With all pools workable a call returns the first pool with quota, from where the rotation stands.
  lemma ServesNext(v: View, failOnly: bool, first: int)
    requires Ok(v) && 0 <= first < |v.used| && AnyQuota(v)
    ensures var n, (u, choice) := |v.used|, Select(v, AllWorkable(|v.used|), failOnly, first);
            && choice == Some(u.rot) && HasQuota(v, u.rot)
            && (forall i :: 0 <= i < n && HasQuota(v, i) ==> Distance(v.rot, u.rot, n) <= Distance(v.rot, i, n))
            && (forall i :: 0 <= i < n && HasQuota(u, i) ==> HasQuota(v, i))
  {
    hide Scan;
    hide Refunds;
    hide RefundsWithin;
    hide Distance;
    var n, workable := |v.used|, AllWorkable(|v.used|);
    var (u, choice) := Select(v, workable, failOnly, first);
    SelectCharges(v, failOnly, first);
    SelectFindsWorkable(v, workable, failOnly, first);
    ScanOutcome(v, n, workable, failOnly, first);
    forall i | 0 <= i < n && HasQuota(v, i)
      ensures Servable(v, workable, failOnly, first, i)
    {
    }
    assert Left(v.used[u.rot], v.gcds[u.rot]) > 0;
    forall i | 0 <= i < n && HasQuota(u, i)
      ensures HasQuota(v, i)
    {
      assert Left(u.used[i], v.gcds[i]) <= Left(v.used[i], v.gcds[i]);
    }
  }

  lemma OrderStep(rot: int, results: seq<Option<int>>, u: View, w: View)
    requires Ok(u) && Ok(w) && |u.used| == |w.used| && 0 <= rot < |u.used| && InOrder(rot, results, u)
    requires HasQuota(u, w.rot)
    requires forall i :: 0 <= i < |u.used| && HasQuota(u, i) ==>
               Distance(u.rot, w.rot, |u.used|) <= Distance(u.rot, i, |u.used|)
    requires forall i :: 0 <= i < |u.used| && HasQuota(w, i) ==> HasQuota(u, i)
    ensures InOrder(rot, results + [Some(w.rot)], w)
  {
    hide Before;
    hide Distance;
    hide HasQuota;
    var n := |u.used|;
    BeforeIsTotal(rot, u.rot, w.rot);
    forall i | 0 <= i < n && Before(rot, i, w.rot)
      ensures !HasQuota(w, i)
    {
      if HasQuota(w, i) {
        CloserAfter(rot, u.rot, i, w.rot, n);
      }
    }
    forall k | 0 <= k < |results|
      ensures results[k] == Some(w.rot) || Before(rot, results[k].value, w.rot)
    {
      BeforeComposes(rot, results[k].value, u.rot, w.rot);
    }
  }

  // One call in a state in which no quota is left.
  lemma OrderStarts(v: View, failOnly: bool, first: int)
    requires Ok(v) && 0 <= first < |v.used| && !AnyQuota(v)
    requires exists i :: 0 <= i < |v.gcds| && v.gcds[i] > 0
    ensures var (u, results) := Calls(v, failOnly, first, 1);
            InOrder(v.rot, results, u)
  {
    hide Select;
    hide Before;
    hide Reset;
    ResetKeeps(v);
    var n, r, workable := |v.used|, Reset(v), AllWorkable(|v.used|);
    var i :| 0 <= i < |v.gcds| && v.gcds[i] > 0;
    forall i | 0 <= i < n
      ensures HasQuota(r, i) <==> Serves(v, workable, failOnly, first, i)
    {
      ServesAll(v, failOnly, first, i);
    }
    assert HasQuota(r, i);
    SelectAfterReset(v, failOnly, first);
    ResetMovesOn(v, workable, failOnly, first);
    ServesNext(r, failOnly, first);
    hide Serves;
    hide HasQuota;
    var (u, choice) := Select(v, workable, failOnly, first);
    OneCall(v, failOnly, first);
    forall i | 0 <= i < n && Before(v.rot, i, u.rot)
      ensures !HasQuota(u, i)
    {
      NotBoth(v.rot, i, u.rot);
    }
  }

  lemma ResetKeeps(v: View)
    requires Ok(v)
    ensures Ok(Reset(v)) && |Reset(v).used| == |v.used| && Reset(v).gcds == v.gcds
  {
  }

  lemma ServesAll(v: View, failOnly: bool, first: int, i: int)
    requires Ok(v) && 0 <= first < |v.used| && 0 <= i < |v.used|
    ensures HasQuota(Reset(v), i) <==> v.gcds[i] > 0
    ensures Serves(v, AllWorkable(|v.used|), failOnly, first, i) <==> v.gcds[i] > 0
  {
  }

  lemma OneCall(v: View, failOnly: bool, first: int)
    requires Ok(v) && 0 <= first < |v.used|
    ensures var (u, choice) := Select(v, AllWorkable(|v.used|), failOnly, first);
            Calls(v, failOnly, first, 1) == (u, [choice])
  {
    hide Select;
    NoCalls(v, failOnly, first);
    var choice := Select(v, AllWorkable(|v.used|), failOnly, first).1;
    assert [] + [choice] == [choice];
  }

  lemma NotBoth(rot: int, i: int, j: int)
    requires Before(rot, i, j)
    ensures !Before(rot, j, i) && i != j
  {
  }

  lemma {:induction false} CallsInOrder(v: View, failOnly: bool, first: int, m: nat)
    requires Ok(v) && 0 <= first < |v.used| && !AnyQuota(v) && 0 < m <= Round(v)
    requires exists i :: 0 <= i < |v.gcds| && v.gcds[i] > 0
    ensures var (u, results) := Calls(v, failOnly, first, m);
            InOrder(v.rot, results, u)
    decreases m
  {
    hide Select;
    hide Round;
    hide InOrder;
    hide AnyQuota;
    hide Distance;
    hide HasQuota;
    if m == 1 {
      OrderStarts(v, failOnly, first);
    } else {
      var (u, results) := Calls(v, failOnly, first, m - 1);
      CallsInOrder(v, failOnly, first, m - 1);
      FairRound(v, failOnly, first);
      ServesNext(u, failOnly, first);
      var w := Select(u, AllWorkable(|v.used|), failOnly, first).0;
      OrderStep(v.rot, results, u, w);
    }
  }

  // Main result: a round serves the pools in their order round the list, starting behind the pool that ended
  // the round before. Since each comes as often as its share says, it comes that often in a row.
  lemma RoundInOrder(v: View, failOnly: bool, first: int)
    requires Ok(v) && 0 <= first < |v.used| && !AnyQuota(v)
    requires exists i :: 0 <= i < |v.gcds| && v.gcds[i] > 0
    ensures var (u, results) := Calls(v, failOnly, first, Round(v));
            && |results| > 0 && results[|results| - 1] == Some(u.rot)
            && (forall k :: 0 <= k < |results| ==> results[k].Some?)
            && (forall p :: 0 <= p < |v.used| ==> Count(results, p) == v.gcds[p])
            && forall k, l :: 0 <= k < l < |results| ==>
                 results[k] == results[l] || Before(v.rot, results[k].value, results[l].value)
  {
    hide Select;
    hide Calls;
    hide Round;
    hide Count;
    hide Before;
    FairRound(v, failOnly, first);
    CallsInOrder(v, failOnly, first, Round(v));
  }

  // ---------- rounds and quotas ----------

  // Over any number of rounds a pool is served as its quota says, up to less than one unit of the divisor for
  // each round, and exactly if the divisor divides the quota.
  lemma FairInQuotas(v: View, quotas: seq<int>, gcd: int, failOnly: bool, first: int, rounds: nat, p: int)
    requires Ok(v) && 0 <= first < |v.used| && !AnyQuota(v) && 0 <= p < |v.used| && rounds > 0
    requires gcd >= 1 && |quotas| == |v.used| && v.gcds == Q.Shares(quotas, gcd)
    requires exists i :: 0 <= i < |v.gcds| && v.gcds[i] > 0
    ensures var n := Count(Calls(v, failOnly, first, rounds * Round(v)).1, p);
            && n * gcd <= rounds * quotas[p] < n * gcd + rounds * gcd
            && (n * gcd == rounds * quotas[p] <==> quotas[p] % gcd == 0)
  {
    hide Calls;
    hide Round;
    hide Count;
    FairRounds(v, failOnly, first, rounds);
    Q.ShareBounds(quotas[p], gcd);
    Scale(rounds, v.gcds[p], gcd, quotas[p]);
  }

  lemma Scale(k: nat, share: int, gcd: int, quota: int)
    requires k > 0 && gcd >= 1 && share * gcd <= quota < share * gcd + gcd
    ensures (k * share) * gcd <= k * quota < (k * share) * gcd + k * gcd
    ensures (k * share) * gcd == k * quota <==> share * gcd == quota
  {
    assert (k * share) * gcd == k * (share * gcd);
    Times(k, share * gcd, quota);
    Times(k, quota, share * gcd + gcd);
    assert k * (share * gcd + gcd) == k * (share * gcd) + k * gcd;
  }

  lemma Times(k: nat, a: int, b: int)
    requires k > 0
    ensures a <= b ==> k * a <= k * b
    ensures a < b ==> k * a < k * b
  {
    if a < b {
      assert k * b == k * a + k * (b - a);
      Positive(k, b - a);
    }
  }

  lemma Positive(k: int, d: int)
    requires k > 0 && d > 0
    ensures k * d > 0
  {
  }
}
