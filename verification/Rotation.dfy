// The quota rotation of select_pool as a function, and its fairness.
module Rotation {
  import opened Wrappers
  import Sequences

  // quota_used and quota_gcd of each pool, and the static rotating_pool.
  datatype View = View(used: seq<int>, gcds: seq<int>, rot: int)

  ghost predicate Ok(v: View) {
    && |v.used| == |v.gcds| && 0 <= v.rot < |v.used|
    && forall i :: 0 <= i < |v.gcds| ==> v.gcds[i] >= 0
  }

  function Advance(rot: int, n: nat): int {
    if rot + 1 >= n then 0 else rot + 1
  }

  ghost predicate HasQuota(v: View, i: int)
    requires |v.used| == |v.gcds| && 0 <= i < |v.used|
  {
    v.used[i] < v.gcds[i]
  }

  ghost predicate AnyQuota(v: View)
    requires |v.used| == |v.gcds|
  {
    exists i :: 0 <= i < |v.used| && HasQuota(v, i)
  }

  function Reset(v: View): View {
    View(seq(|v.used|, _ => 0), v.gcds, Advance(v.rot, |v.used|))
  }

  // One test of the rotation: charge the pool where the rotation stands.
  function Charged(v: View): (r: View)
    requires Ok(v)
    ensures Ok(r)
  {
    v.(used := v.used[v.rot := v.used[v.rot] + 1])
  }

  // The pool is passed over; an unworkable pool that had quota gives it to pool `first` in fail-only mode.
  function Skipped(v: View, failOnly: bool, first: int): (r: View)
    requires Ok(v) && 0 <= first < |v.used|
    ensures Ok(r) && |r.used| == |v.used| && r.gcds == v.gcds
  {
    var u := Charged(v);
    u.(rot := Advance(v.rot, |v.used|),
       used := if failOnly && v.used[v.rot] < v.gcds[v.rot] then u.used[first := u.used[first] - 1] else u.used)
  }

  // At most k tests.
  function Scan(v: View, k: nat, workable: seq<bool>, failOnly: bool, first: int): (r: (View, Option<int>))
    requires Ok(v) && |workable| == |v.used| && 0 <= first < |v.used|
    ensures Ok(r.0) && |r.0.used| == |v.used| && r.0.gcds == v.gcds
    ensures r.1.Some? ==> 0 <= r.1.value < |v.used|
    decreases k
  {
    if k == 0 then (v, None)
    else if v.used[v.rot] < v.gcds[v.rot] && workable[v.rot] then (Charged(v), Some(v.rot))
    else Scan(Skipped(v, failOnly, first), k - 1, workable, failOnly, first)
  }

  lemma ScanStep(v: View, k: nat, workable: seq<bool>, failOnly: bool, first: int)
    requires Ok(v) && |workable| == |v.used| && 0 <= first < |v.used|
    ensures Scan(v, k, workable, failOnly, first) ==
            if k == 0 then (v, None)
            else if v.used[v.rot] < v.gcds[v.rot] && workable[v.rot] then (Charged(v), Some(v.rot))
            else Scan(Skipped(v, failOnly, first), k - 1, workable, failOnly, first)
  {
  }

  ghost function Select(v: View, workable: seq<bool>, failOnly: bool, first: int): (r: (View, Option<int>))
    requires Ok(v) && |workable| == |v.used| && 0 <= first < |v.used|
    ensures Ok(r.0) && |r.0.used| == |v.used| && r.0.gcds == v.gcds
    ensures r.1.Some? ==> 0 <= r.1.value < |v.used|
  {
    Scan(if AnyQuota(v) then v else Reset(v), |v.used|, workable, failOnly, first)
  }

  // ---------- one call ----------

  // How many tests bring the rotation from rot to pool i.
  function Distance(rot: int, i: int, n: nat): int {
    if i >= rot then i - rot else i - rot + n
  }

  // The refunds that k tests make to pool `first` in fail-only mode.
  function Refunds(v: View, k: nat, workable: seq<bool>, failOnly: bool, first: int): nat
    requires Ok(v) && |workable| == |v.used| && 0 <= first < |v.used|
    decreases k
  {
    if !failOnly || k == 0 || (v.used[v.rot] < v.gcds[v.rot] && workable[v.rot]) then 0
    else (if v.used[v.rot] < v.gcds[v.rot] then 1 else 0)
         + Refunds(Skipped(v, failOnly, first), k - 1, workable, failOnly, first)
  }

  lemma RefundsStep(v: View, k: nat, workable: seq<bool>, failOnly: bool, first: int)
    requires Ok(v) && |workable| == |v.used| && 0 <= first < |v.used|
    ensures Refunds(v, k, workable, failOnly, first) ==
            if !failOnly || k == 0 || (v.used[v.rot] < v.gcds[v.rot] && workable[v.rot]) then 0
            else (if v.used[v.rot] < v.gcds[v.rot] then 1 else 0)
                 + Refunds(Skipped(v, failOnly, first), k - 1, workable, failOnly, first)
  {
  }

  // Without fail-only mode there are none.
  lemma NoneRefunded(v: View, k: nat, workable: seq<bool>, first: int)
    requires Ok(v) && |workable| == |v.used| && 0 <= first < |v.used|
    ensures Refunds(v, k, workable, false, first) == 0
  {
  }

  // The pools up to the one that is returned, or all within k tests, are charged once, and pool `first` gets
  // the refunds back. The rotation stops at the pool that is returned, or else has moved on k times.
  ghost predicate Outcome(v: View, k: nat, refunds: nat, first: int, u: View, choice: Option<int>)
    requires Ok(v) && |v.used| == |u.used|
  {
    var n := |v.used|;
    && (choice.Some? ==> 0 <= choice.value < n && Distance(v.rot, choice.value, n) < k)
    && u.rot == (if choice.Some? then choice.value else Sequences.Onward(v.rot, k, n))
    && var tests := if choice.Some? then Distance(v.rot, choice.value, n) + 1 else k;
       forall i :: 0 <= i < n ==>
         u.used[i] == v.used[i] + (if Distance(v.rot, i, n) < tests then 1 else 0)
                                - (if i == first then refunds else 0)
  }

  lemma OutcomeSkip(v: View, w: View, k: nat, refunds: nat, refund: nat, first: int, u: View, choice: Option<int>)
    requires Ok(v) && Ok(w) && |v.used| == |w.used| == |u.used| && 0 < k <= |v.used| && 0 <= first < |v.used|
    requires w.rot == Advance(v.rot, |v.used|)
    requires forall i :: 0 <= i < |v.used| ==>
               w.used[i] == v.used[i] + (if i == v.rot then 1 else 0) - (if i == first then refund else 0)
    requires Outcome(w, k - 1, refunds, first, u, choice)
    ensures Outcome(v, k, refund + refunds, first, u, choice)
  {
    var n := |v.used|;
    assert Distance(w.rot, v.rot, n) == n - 1 && Distance(v.rot, v.rot, n) == 0;
    assert forall i :: 0 <= i < n && i != v.rot ==> Distance(w.rot, i, n) == Distance(v.rot, i, n) - 1;
  }

  lemma {:induction false} ScanOutcome(v: View, k: nat, workable: seq<bool>, failOnly: bool, first: int)
    requires Ok(v) && |workable| == |v.used| && 0 <= first < |v.used| && k <= |v.used|
    ensures var (u, choice) := Scan(v, k, workable, failOnly, first);
            Outcome(v, k, Refunds(v, k, workable, failOnly, first), first, u, choice)
    decreases k
  {
    ScanStep(v, k, workable, failOnly, first);
    RefundsStep(v, k, workable, failOnly, first);
    hide Scan;
    hide Refunds;
    if k > 0 && !(v.used[v.rot] < v.gcds[v.rot] && workable[v.rot]) {
      var w := Skipped(v, failOnly, first);
      ScanOutcome(w, k - 1, workable, failOnly, first);
      var (u, choice) := Scan(w, k - 1, workable, failOnly, first);
      hide Outcome;
      var refund := if failOnly && v.used[v.rot] < v.gcds[v.rot] then 1 else 0;
      if !failOnly {
        NoneRefunded(w, k - 1, workable, first);
      }
      OutcomeSkip(v, w, k, Refunds(w, k - 1, workable, failOnly, first), refund, first, u, choice);
    }
  }

  // In fail-only mode: the refunds to pool `first` from the d pools that are tested first.
  function RefundsWithin(v: View, workable: seq<bool>, d: nat): nat
    requires Ok(v) && |workable| == |v.used| && d <= |v.used|
  {
    if d == 0 then 0
    else
      var i := Sequences.Onward(v.rot, d - 1, |v.used|);
      RefundsWithin(v, workable, d - 1) + if v.used[i] < v.gcds[i] && !workable[i] then 1 else 0
  }

  // A pool that has quota when its turn comes: quota from the start or, for pool `first` in fail-only mode,
  // from the refunds before its turn.
  ghost predicate Servable(v: View, workable: seq<bool>, failOnly: bool, first: int, i: int)
    requires Ok(v) && |workable| == |v.used| && 0 <= i < |v.used|
  {
    workable[i] &&
    (HasQuota(v, i) || (failOnly && i == first
                        && v.used[i] - RefundsWithin(v, workable, Distance(v.rot, i, |v.used|)) < v.gcds[i]))
  }

  // Only pool `first` and the pool where the rotation stands are changed by a turn.
  lemma {:induction false} RefundsShift(v: View, workable: seq<bool>, first: int, d: nat)
    requires Ok(v) && |workable| == |v.used| && 0 <= first < |v.used|
    requires 0 < d <= |v.used| && d <= Distance(v.rot, first, |v.used|)
    ensures RefundsWithin(v, workable, d)
         == RefundsWithin(Skipped(v, true, first), workable, d - 1)
            + if v.used[v.rot] < v.gcds[v.rot] && !workable[v.rot] then 1 else 0
    decreases d
  {
    var n, w := |v.used|, Skipped(v, true, first);
    if d == 1 {
      assert Sequences.Onward(v.rot, 0, n) == v.rot;
      assert RefundsWithin(v, workable, 0) == 0;
    } else {
      RefundsShift(v, workable, first, d - 1);
      var i := Sequences.Onward(v.rot, d - 1, n);
      assert i == Sequences.Onward(w.rot, d - 2, n) && i != v.rot && i != first;
      assert w.used[i] == v.used[i];
    }
  }

  lemma ServableShift(v: View, workable: seq<bool>, failOnly: bool, first: int, i: int)
    requires Ok(v) && |workable| == |v.used| && 0 <= first < |v.used| && 0 <= i < |v.used| && i != v.rot
    requires !(v.used[v.rot] < v.gcds[v.rot] && workable[v.rot])
    ensures Servable(v, workable, failOnly, first, i)
       <==> Servable(Skipped(v, failOnly, first), workable, failOnly, first, i)
    ensures Distance(Skipped(v, failOnly, first).rot, i, |v.used|) == Distance(v.rot, i, |v.used|) - 1
  {
    if failOnly && i == first {
      RefundsShift(v, workable, first, Distance(v.rot, i, |v.used|));
    }
  }

  // The scan returns a pool exactly if one of the pools it tests is servable, and it returns the first such pool.
  lemma {:induction false} ScanFinds(v: View, k: nat, workable: seq<bool>, failOnly: bool, first: int)
    requires Ok(v) && |workable| == |v.used| && 0 <= first < |v.used| && k <= |v.used|
    ensures var n, choice := |v.used|, Scan(v, k, workable, failOnly, first).1;
            && (choice.Some? <==>
                  exists i :: 0 <= i < n && Distance(v.rot, i, n) < k && Servable(v, workable, failOnly, first, i))
            && (choice.Some? ==>
                  && Distance(v.rot, choice.value, n) < k && Servable(v, workable, failOnly, first, choice.value)
                  && forall i :: 0 <= i < n && Distance(v.rot, i, n) < Distance(v.rot, choice.value, n) ==>
                       !Servable(v, workable, failOnly, first, i))
    decreases k
  {
    hide RefundsWithin;
    hide Servable;
    var n := |v.used|;
    ScanStep(v, k, workable, failOnly, first);
    if k > 0 {
      ServableHere(v, workable, failOnly, first);
      if !(v.used[v.rot] < v.gcds[v.rot] && workable[v.rot]) {
        var w := Skipped(v, failOnly, first);
        assert Distance(w.rot, v.rot, n) == n - 1;
        ScanFinds(w, k - 1, workable, failOnly, first);
        forall i | 0 <= i < n && i != v.rot
          ensures Servable(v, workable, failOnly, first, i) <==> Servable(w, workable, failOnly, first, i)
          ensures Distance(w.rot, i, n) == Distance(v.rot, i, n) - 1
        {
          ServableShift(v, workable, failOnly, first, i);
        }
      }
    }
    hide Scan;
    hide Skipped;
  }

  lemma ServableHere(v: View, workable: seq<bool>, failOnly: bool, first: int)
    requires Ok(v) && |workable| == |v.used|
    ensures Distance(v.rot, v.rot, |v.used|) == 0
    ensures Servable(v, workable, failOnly, first, v.rot) <==> v.used[v.rot] < v.gcds[v.rot] && workable[v.rot]
  {
    assert RefundsWithin(v, workable, 0) == 0;
  }

  // A workable pool with quota at its turn is returned whenever there is one, the first such pool, and nothing
  // else by the rotation. Without fail-only mode that is a workable pool with quota at the start.
  lemma SelectFindsWorkable(v: View, workable: seq<bool>, failOnly: bool, first: int)
    requires Ok(v) && |workable| == |v.used| && 0 <= first < |v.used|
    ensures var start := if AnyQuota(v) then v else Reset(v);
            var choice := Select(v, workable, failOnly, first).1;
            && (choice.Some? <==> exists i :: 0 <= i < |v.used| && Servable(start, workable, failOnly, first, i))
            && (choice.Some? ==>
                  && Servable(start, workable, failOnly, first, choice.value)
                  && forall i :: 0 <= i < |v.used| && Servable(start, workable, failOnly, first, i) ==>
                    Distance(start.rot, choice.value, |v.used|) <= Distance(start.rot, i, |v.used|))
            && (!failOnly ==> forall i :: 0 <= i < |v.used| ==>
                  (Servable(start, workable, failOnly, first, i) <==> workable[i] && HasQuota(start, i)))
  {
    var start := if AnyQuota(v) then v else Reset(v);
    ScanFinds(start, |v.used|, workable, failOnly, first);
    assert forall i :: 0 <= i < |v.used| ==> Distance(start.rot, i, |v.used|) < |v.used|;
  }

  // ---------- quota left ----------

  function Left(used: int, gcd: int): nat {
    if used < gcd then gcd - used else 0
  }

  ghost function TotalLeft(used: seq<int>, gcds: seq<int>): nat
    requires |used| == |gcds|
  {
    if used == [] then 0
    else TotalLeft(used[..|used| - 1], gcds[..|used| - 1]) + Left(used[|used| - 1], gcds[|used| - 1])
  }

  lemma {:induction false} TotalLeftMonotone(a: seq<int>, b: seq<int>, gcds: seq<int>)
    requires |a| == |b| == |gcds| && forall i :: 0 <= i < |a| ==> a[i] <= b[i]
    ensures TotalLeft(b, gcds) <= TotalLeft(a, gcds)
    ensures (exists i :: 0 <= i < |a| && a[i] < gcds[i] && a[i] < b[i]) ==> TotalLeft(b, gcds) < TotalLeft(a, gcds)
    decreases |a|
  {
    if a != [] {
      var n := |a| - 1;
      TotalLeftMonotone(a[..n], b[..n], gcds[..n]);
      if i :| 0 <= i < |a| && a[i] < gcds[i] && a[i] < b[i] {
        if i < n {
          assert a[..n][i] < gcds[..n][i] && a[..n][i] < b[..n][i];
        }
      }
    }
  }

  lemma {:induction false} TotalLeftUpdate(used: seq<int>, gcds: seq<int>, i: nat, x: int)
    requires |used| == |gcds| && i < |used|
    ensures TotalLeft(used[i := x], gcds) + Left(used[i], gcds[i]) == TotalLeft(used, gcds) + Left(x, gcds[i])
  {
    var n := |used| - 1;
    if i < n {
      TotalLeftUpdate(used[..n], gcds[..n], i, x);
      assert used[i := x][..n] == used[..n][i := x];
    } else {
      assert used[i := x][..n] == used[..n];
    }
  }

  lemma ChargedLeft(v: View)
    requires Ok(v)
    ensures TotalLeft(Charged(v).used, v.gcds)
         == TotalLeft(v.used, v.gcds) - if v.used[v.rot] < v.gcds[v.rot] then 1 else 0
  {
    TotalLeftUpdate(v.used, v.gcds, v.rot, v.used[v.rot] + 1);
  }

  // A turn that passes over its pool uses quota up unless pool `first` gets it.
  lemma SkippedLeft(v: View, failOnly: bool, first: int)
    requires Ok(v) && 0 <= first < |v.used|
    ensures TotalLeft(Skipped(v, failOnly, first).used, v.gcds)
         == TotalLeft(v.used, v.gcds)
            - if HasQuota(v, v.rot) && (failOnly ==> v.rot != first && v.used[first] > v.gcds[first]) then 1 else 0
  {
    hide TotalLeft;
    ChargedLeft(v);
    var u := Charged(v);
    TotalLeftUpdate(u.used, v.gcds, first, u.used[first] - 1);
  }

  // A call never raises the quota left, and it lowers it when it returns a pool.
  lemma {:induction false} ScanNeverRaises(v: View, k: nat, workable: seq<bool>, failOnly: bool, first: int)
    requires Ok(v) && |workable| == |v.used| && 0 <= first < |v.used|
    ensures var (u, choice) := Scan(v, k, workable, failOnly, first);
            TotalLeft(u.used, v.gcds) + (if choice.Some? then 1 else 0) <= TotalLeft(v.used, v.gcds)
    decreases k
  {
    hide TotalLeft;
    ScanStep(v, k, workable, failOnly, first);
    hide Scan;
    if k > 0 {
      if v.used[v.rot] < v.gcds[v.rot] && workable[v.rot] {
        ChargedLeft(v);
      } else {
        SkippedLeft(v, failOnly, first);
        ScanNeverRaises(Skipped(v, failOnly, first), k - 1, workable, failOnly, first);
      }
    }
  }

  // Some pool that is tested after at least `from` and fewer than `to` others has quota.
  ghost predicate HoldsQuota(v: View, from: int, to: int)
    requires Ok(v)
  {
    exists i :: 0 <= i < |v.used| && from <= Distance(v.rot, i, |v.used|) < to && HasQuota(v, i)
  }

  lemma HoldsHere(v: View, to: int)
    requires Ok(v) && 0 < to <= |v.used|
    ensures HoldsQuota(v, 0, to) <==> HasQuota(v, v.rot) || HoldsQuota(v, 1, to)
  {
    assert Distance(v.rot, v.rot, |v.used|) == 0;
  }

  lemma HoldsShift(v: View, failOnly: bool, first: int, from: int, to: int)
    requires Ok(v) && 0 <= first < |v.used| && 0 < from && to <= |v.used|
    requires failOnly && HasQuota(v, v.rot) && first != v.rot ==> v.used[first] > v.gcds[first]
    ensures HoldsQuota(v, from, to) <==> HoldsQuota(Skipped(v, failOnly, first), from - 1, to - 1)
  {
    var n, w := |v.used|, Skipped(v, failOnly, first);
    assert Distance(v.rot, v.rot, n) == 0 && Distance(w.rot, v.rot, n) == n - 1;
    forall i | 0 <= i < n && i != v.rot
      ensures Distance(w.rot, i, n) == Distance(v.rot, i, n) - 1 && (HasQuota(w, i) <==> HasQuota(v, i))
    {
    }
  }

  // k tests that pass over all their pools use quota up: without fail-only mode that of any pool; in fail-only
  // mode that of a pool tested while pool `first` is over its quota, from the start or from its own turn on.
  ghost predicate WastesWithin(v: View, k: nat, workable: seq<bool>, failOnly: bool, first: int)
    requires Ok(v) && |workable| == |v.used| && 0 <= first < |v.used|
  {
    var d := Distance(v.rot, first, |v.used|);
    if !failOnly || v.used[first] > v.gcds[first] then HoldsQuota(v, 0, k)
    else v.used[first] == v.gcds[first] && RefundsWithin(v, workable, d) == 0 && HoldsQuota(v, d + 1, k)
  }

  lemma WastesShift(v: View, k: nat, workable: seq<bool>, failOnly: bool, first: int)
    requires Ok(v) && |workable| == |v.used| && 0 <= first < |v.used| && 0 < k <= |v.used|
    requires !(v.used[v.rot] < v.gcds[v.rot] && workable[v.rot])
    ensures WastesWithin(v, k, workable, failOnly, first)
       <==> WastesWithin(Skipped(v, failOnly, first), k - 1, workable, failOnly, first)
            || (HasQuota(v, v.rot) && (failOnly ==> v.rot != first && v.used[first] > v.gcds[first]))
  {
    hide HoldsQuota;
    var d := Distance(v.rot, first, |v.used|);
    HoldsHere(v, k);
    if !failOnly || v.used[first] > v.gcds[first] {
      HoldsShift(v, failOnly, first, 1, k);
    } else if v.rot == first {
      HoldsShift(v, failOnly, first, 1, k);
    } else {
      RefundsShift(v, workable, first, d);
      if !HasQuota(v, v.rot) {
        HoldsShift(v, failOnly, first, d + 1, k);
      }
    }
  }

  // The quota left drops exactly if a pool is returned or quota is used up.
  lemma {:induction false} ScanLowers(v: View, k: nat, workable: seq<bool>, failOnly: bool, first: int)
    requires Ok(v) && |workable| == |v.used| && 0 <= first < |v.used| && k <= |v.used|
    ensures var (u, choice) := Scan(v, k, workable, failOnly, first);
            TotalLeft(u.used, v.gcds) < TotalLeft(v.used, v.gcds)
            <==> choice.Some? || WastesWithin(v, k, workable, failOnly, first)
    decreases k
  {
    hide TotalLeft;
    ScanStep(v, k, workable, failOnly, first);
    ScanNeverRaises(v, k, workable, failOnly, first);
    hide Scan;
    if k > 0 && !(v.used[v.rot] < v.gcds[v.rot] && workable[v.rot]) {
      var w := Skipped(v, failOnly, first);
      ScanLowers(w, k - 1, workable, failOnly, first);
      ScanNeverRaises(w, k - 1, workable, failOnly, first);
      SkippedLeft(v, failOnly, first);
      WastesShift(v, k, workable, failOnly, first);
      hide WastesWithin;
    }
  }

  // Checked before a call that does not reset: failover-only is off, a pool will be returned, or pool `first`
  // is over its quota, or has just used it up and gets no refund before its turn.
  ghost predicate Lowers(v: View, workable: seq<bool>, failOnly: bool, first: int)
    requires Ok(v) && |workable| == |v.used| && 0 <= first < |v.used|
  {
    || !failOnly
    || (exists i :: 0 <= i < |v.used| && Servable(v, workable, failOnly, first, i))
    || v.used[first] > v.gcds[first]
    || (v.used[first] == v.gcds[first] && RefundsWithin(v, workable, Distance(v.rot, first, |v.used|)) == 0)
  }

  // Progress: exactly under that condition a call that does not reset lowers the quota left. It holds whenever
  // pool `first` is workable.
  lemma SelectLowersIff(v: View, workable: seq<bool>, failOnly: bool, first: int)
    requires Ok(v) && |workable| == |v.used| && 0 <= first < |v.used| && AnyQuota(v)
    ensures TotalLeft(Select(v, workable, failOnly, first).0.used, v.gcds) < TotalLeft(v.used, v.gcds)
       <==> Lowers(v, workable, failOnly, first)
    ensures !failOnly || workable[first] ==> Lowers(v, workable, failOnly, first)
  {
    hide Scan;
    hide TotalLeft;
    hide RefundsWithin;
    var n, d := |v.used|, Distance(v.rot, first, |v.used|);
    assert !Servable(v, workable, failOnly, first, first) && workable[first] ==> Lowers(v, workable, failOnly, first);
    ScanLowers(v, n, workable, failOnly, first);
    SelectFindsWorkable(v, workable, failOnly, first);
    if Select(v, workable, failOnly, first).1.None? {
      var i :| 0 <= i < n && HasQuota(v, i);
      assert !Servable(v, workable, failOnly, first, i);
      if i != first && Distance(v.rot, i, n) < d {
        RefundsCount(v, workable, d, i);
      }
    }
  }

  // An unworkable pool with quota makes a refund.
  lemma {:induction false} RefundsCount(v: View, workable: seq<bool>, d: nat, i: int)
    requires Ok(v) && |workable| == |v.used| && 0 <= i < |v.used|
    requires Distance(v.rot, i, |v.used|) < d <= |v.used| && HasQuota(v, i) && !workable[i]
    ensures RefundsWithin(v, workable, d) > 0
    decreases d
  {
    if i != Sequences.Onward(v.rot, d - 1, |v.used|) {
      RefundsCount(v, workable, d - 1, i);
    }
  }

  // In fail-only mode one unworkable pool keeps its quota for ever, and no call resets it.
  lemma FailOnlyStalls()
    ensures var v := View([0], [1], 0);
            AnyQuota(v) && Select(v, [false], true, 0) == (v, None)
  {
    var v := View([0], [1], 0);
    assert HasQuota(v, 0);
    assert Skipped(v, true, 0).used == [0];
    ScanStep(v, 1, [false], true, 0);
    ScanStep(v, 0, [false], true, 0);
  }

  lemma NoneBefore(v: View, workable: seq<bool>)
    requires Ok(v) && |workable| == |v.used|
    ensures RefundsWithin(v, workable, 0) == 0
  {
  }

  lemma SkippedFirst(v: View, first: int)
    requires Ok(v) && 0 <= first < |v.used| && first != v.rot
    ensures var w := Skipped(v, true, first);
            && w.used[first] == v.used[first] - (if HasQuota(v, v.rot) then 1 else 0)
            && Distance(w.rot, first, |v.used|) == Distance(v.rot, first, |v.used|) - 1
  {
  }

  // Pool `first` gets at least the refunds of the d pools before it, and its own if it has quota then.
  lemma {:induction false} RefundsAtLeast(v: View, k: nat, workable: seq<bool>, first: int, d: nat)
    requires Ok(v) && |workable| == |v.used| && 0 <= first < |v.used| && k <= |v.used|
    requires d == Distance(v.rot, first, |v.used|) < k && Scan(v, k, workable, true, first).1.None?
    ensures var r := RefundsWithin(v, workable, d);
            Refunds(v, k, workable, true, first) >= r + if v.used[first] - r < v.gcds[first] then 1 else 0
    decreases d
  {
    hide RefundsWithin;
    hide Skipped;
    ScanStep(v, k, workable, true, first);
    RefundsStep(v, k, workable, true, first);
    hide Scan;
    hide Refunds;
    if d == 0 {
      NoneBefore(v, workable);
    } else {
      SkippedFirst(v, first);
      hide Distance;
      RefundsShift(v, workable, first, d);
      RefundsAtLeast(Skipped(v, true, first), k - 1, workable, first, d - 1);
    }
  }

  // A call that does not lower the quota left changes nothing that later ones depend on: while the same pools
  // are workable no later call lowers it, and none resets.
  lemma StallStays(v: View, workable: seq<bool>, failOnly: bool, first: int)
    requires Ok(v) && |workable| == |v.used| && 0 <= first < |v.used| && AnyQuota(v)
    requires !Lowers(v, workable, failOnly, first)
    ensures var (u, choice) := Select(v, workable, failOnly, first);
            choice == None && AnyQuota(u) && !Lowers(u, workable, failOnly, first)
  {
    hide Scan;
    hide RefundsWithin;
    hide Refunds;
    var n := |v.used|;
    var (u, choice) := Select(v, workable, failOnly, first);
    SelectFindsWorkable(v, workable, failOnly, first);
    ScanOutcome(v, n, workable, failOnly, first);
    RefundsAtLeast(v, n, workable, first, Distance(v.rot, first, n));
    assert !Servable(v, workable, failOnly, first, first);
    assert HasQuota(u, first);
    forall i | 0 <= i < n
      ensures !Servable(u, workable, failOnly, first, i)
    {
      assert !Servable(v, workable, failOnly, first, i);
    }
  }

  // The state after calls with the given workability of the pools.
  ghost function After(v: View, calls: seq<seq<bool>>, failOnly: bool, first: int): (r: View)
    requires Ok(v) && 0 <= first < |v.used| && forall c :: c in calls ==> |c| == |v.used|
    ensures Ok(r) && |r.used| == |v.used| && r.gcds == v.gcds
    decreases |calls|
  {
    if calls == [] then v
    else Select(After(v, calls[..|calls| - 1], failOnly, first), calls[|calls| - 1], failOnly, first).0
  }

  lemma AfterStep(v: View, calls: seq<seq<bool>>, failOnly: bool, first: int, m: nat)
    requires Ok(v) && 0 <= first < |v.used| && forall c :: c in calls ==> |c| == |v.used|
    requires m <= |calls|
    ensures After(v, calls[..m], failOnly, first)
         == if m == 0 then v else Select(After(v, calls[..m - 1], failOnly, first), calls[m - 1], failOnly, first).0
  {
    hide Select;
    if m > 0 {
      assert calls[..m][..m - 1] == calls[..m - 1];
    }
  }

  // The first m calls find quota left, and each of them lowers it.
  ghost predicate Lowering(v: View, calls: seq<seq<bool>>, failOnly: bool, first: int, m: nat)
    requires Ok(v) && 0 <= first < |v.used| && forall c :: c in calls ==> |c| == |v.used|
  {
    && m <= |calls|
    && forall l :: 0 <= l < m ==>
         AnyQuota(After(v, calls[..l], failOnly, first))
         && Lowers(After(v, calls[..l], failOnly, first), calls[l], failOnly, first)
  }

  lemma {:induction false} LeftShrinks(v: View, calls: seq<seq<bool>>, failOnly: bool, first: int, m: nat)
    requires Ok(v) && 0 <= first < |v.used| && forall c :: c in calls ==> |c| == |v.used|
    requires Lowering(v, calls, failOnly, first, m)
    ensures TotalLeft(After(v, calls[..m], failOnly, first).used, v.gcds) + m <= TotalLeft(v.used, v.gcds)
    decreases m
  {
    hide Select;
    hide Lowers;
    hide After;
    hide TotalLeft;
    hide AnyQuota;
    AfterStep(v, calls, failOnly, first, m);
    if m > 0 {
      LeftShrinks(v, calls, failOnly, first, m - 1);
      SelectLowersIff(After(v, calls[..m - 1], failOnly, first), calls[m - 1], failOnly, first);
    }
  }

  // Within as many calls as there was quota left, either the quota is used up, so that the next call resets,
  // or a call stalls.
  lemma {:induction false} ResetComesWithin(v: View, calls: seq<seq<bool>>, failOnly: bool, first: int)
    requires Ok(v) && 0 <= first < |v.used| && forall c :: c in calls ==> |c| == |v.used|
    requires |calls| > TotalLeft(v.used, v.gcds)
    ensures exists m :: 0 <= m <= TotalLeft(v.used, v.gcds) && Lowering(v, calls, failOnly, first, m)
              && (AnyQuota(After(v, calls[..m], failOnly, first)) ==>
                    !Lowers(After(v, calls[..m], failOnly, first), calls[m], failOnly, first))
  {
    var m := FirstIdle(v, calls, failOnly, first, |calls|);
    LeftShrinks(v, calls, failOnly, first, m);
  }

  // With failover-only off, or with pool `first` always workable, no call stalls, so the quota is used up.
  lemma ResetComes(v: View, calls: seq<seq<bool>>, failOnly: bool, first: int)
    requires Ok(v) && 0 <= first < |v.used| && forall c :: c in calls ==> |c| == |v.used|
    requires |calls| > TotalLeft(v.used, v.gcds) && forall c :: c in calls ==> failOnly ==> c[first]
    ensures exists m :: 0 <= m <= TotalLeft(v.used, v.gcds) && !AnyQuota(After(v, calls[..m], failOnly, first))
  {
    hide After;
    hide Lowers;
    hide AnyQuota;
    ResetComesWithin(v, calls, failOnly, first);
    var m :| 0 <= m <= TotalLeft(v.used, v.gcds) && Lowering(v, calls, failOnly, first, m)
               && (AnyQuota(After(v, calls[..m], failOnly, first)) ==>
                     !Lowers(After(v, calls[..m], failOnly, first), calls[m], failOnly, first));
    var u := After(v, calls[..m], failOnly, first);
    if AnyQuota(u) {
      assert calls[m] in calls;
      SelectLowersIff(u, calls[m], failOnly, first);
    }
  }

  // The number of calls, at most m, before the first that finds no quota left or does not lower it.
  lemma {:induction false} FirstIdle(v: View, calls: seq<seq<bool>>, failOnly: bool, first: int, m: nat)
    returns (r: nat)
    requires Ok(v) && 0 <= first < |v.used| && forall c :: c in calls ==> |c| == |v.used|
    requires m <= |calls|
    ensures r <= m && Lowering(v, calls, failOnly, first, r)
    ensures r < m && AnyQuota(After(v, calls[..r], failOnly, first)) ==>
              !Lowers(After(v, calls[..r], failOnly, first), calls[r], failOnly, first)
    decreases m
  {
    hide After;
    hide Lowers;
    hide AnyQuota;
    r := 0;
    if m > 0 {
      r := FirstIdle(v, calls, failOnly, first, m - 1);
      if r == m - 1 {
        var u := After(v, calls[..r], failOnly, first);
        if AnyQuota(u) && Lowers(u, calls[r], failOnly, first) {
          r := m;
        }
      }
    }
  }

  // Once a call stalls, no later call that sees the same pools workable returns one, lowers the quota left or
  // resets.
  lemma {:induction false} StallIsForever(
    v: View, workable: seq<bool>, calls: seq<seq<bool>>, failOnly: bool, first: int)
    requires Ok(v) && |workable| == |v.used| && 0 <= first < |v.used| && AnyQuota(v)
    requires !Lowers(v, workable, failOnly, first) && forall i :: 0 <= i < |calls| ==> calls[i] == workable
    ensures var u := After(v, calls, failOnly, first);
            && AnyQuota(u) && !Lowers(u, workable, failOnly, first)
            && Select(u, workable, failOnly, first).1 == None
    decreases |calls|
  {
    hide Select;
    hide Lowers;
    hide AnyQuota;
    if calls != [] {
      StallIsForever(v, workable, calls[..|calls| - 1], failOnly, first);
      StallStays(After(v, calls[..|calls| - 1], failOnly, first), workable, failOnly, first);
    }
    StallStays(After(v, calls, failOnly, first), workable, failOnly, first);
  }

  lemma {:induction false} ScanKeepsFirst(v: View, k: nat, workable: seq<bool>, first: int)
    requires Ok(v) && |workable| == |v.used| && 0 <= first < |v.used|
    requires HasQuota(v, first) && !workable[first]
    ensures HasQuota(Scan(v, k, workable, true, first).0, first)
    decreases k
  {
    ScanStep(v, k, workable, true, first);
    hide Scan;
    if k > 0 && !(v.used[v.rot] < v.gcds[v.rot] && workable[v.rot]) {
      ScanKeepsFirst(Skipped(v, true, first), k - 1, workable, first);
    }
  }

  // In fail-only mode nothing resets while pool `first` is unworkable with quota, whatever the others are.
  lemma {:induction false} FirstKeepsQuota(v: View, calls: seq<seq<bool>>, first: int)
    requires Ok(v) && 0 <= first < |v.used| && forall c :: c in calls ==> |c| == |v.used| && !c[first]
    requires HasQuota(v, first)
    ensures HasQuota(After(v, calls, true, first), first)
    decreases |calls|
  {
    if calls != [] {
      var u := After(v, calls[..|calls| - 1], true, first);
      FirstKeepsQuota(v, calls[..|calls| - 1], first);
      ScanKeepsFirst(u, |u.used|, calls[|calls| - 1], first);
    }
  }

  // ---------- fairness: all pools workable ----------

  function AllWorkable(n: nat): (r: seq<bool>)
    ensures |r| == n
  {
    seq(n, _ => true)
  }

  // The pools returned by m successive calls, and the state after them.
  ghost function Calls(v: View, failOnly: bool, first: int, m: nat): (r: (View, seq<Option<int>>))
    requires Ok(v) && 0 <= first < |v.used|
    ensures Ok(r.0) && |r.0.used| == |v.used| && r.0.gcds == v.gcds && |r.1| == m
    decreases m
  {
    if m == 0 then (v, [])
    else
      var (u, results) := Calls(v, failOnly, first, m - 1);
      var (w, choice) := Select(u, AllWorkable(|v.used|), failOnly, first);
      (w, results + [choice])
  }

  ghost function Count(results: seq<Option<int>>, p: int): nat {
    if results == [] then 0
    else Count(results[..|results| - 1], p) + if results[|results| - 1] == Some(p) then 1 else 0
  }

  lemma {:induction false} NoRefunds(v: View, k: nat, failOnly: bool, first: int)
    requires Ok(v) && 0 <= first < |v.used|
    ensures Refunds(v, k, AllWorkable(|v.used|), failOnly, first) == 0
    decreases k
  {
    if k > 0 {
      NoRefunds(Skipped(v, failOnly, first), k - 1, failOnly, first);
    }
  }

  // Every call charges exactly the pool it returns: what the others have left is untouched.
  lemma SelectCharges(v: View, failOnly: bool, first: int)
    requires Ok(v) && 0 <= first < |v.used| && AnyQuota(v)
    ensures var (u, choice) := Select(v, AllWorkable(|v.used|), failOnly, first);
            && choice.Some?
            && forall i :: 0 <= i < |v.used| ==>
                 Left(u.used[i], v.gcds[i]) + (if choice == Some(i) then 1 else 0) == Left(v.used[i], v.gcds[i])
  {
    hide Scan;
    hide Refunds;
    hide RefundsWithin;
    var n, workable := |v.used|, AllWorkable(|v.used|);
    var i :| 0 <= i < n && HasQuota(v, i);
    assert Servable(v, workable, failOnly, first, i);
    SelectFindsWorkable(v, workable, failOnly, first);
    ScanOutcome(v, n, workable, failOnly, first);
    NoRefunds(v, n, failOnly, first);
    ScanCounts(v, n, workable, failOnly, first);
    var (u, choice) := Select(v, workable, failOnly, first);
    forall j | 0 <= j < n
      ensures Left(u.used[j], v.gcds[j]) + (if choice == Some(j) then 1 else 0) == Left(v.used[j], v.gcds[j])
    {
      if HasQuota(v, j) {
        assert Servable(v, workable, failOnly, first, j);
      }
    }
  }

  lemma CountExtend(results: seq<Option<int>>, choice: Option<int>, p: int)
    ensures Count(results + [choice], p) == Count(results, p) + if choice == Some(p) then 1 else 0
  {
    assert (results + [choice])[..|results|] == results;
  }

  lemma CountNone(p: int)
    ensures Count([], p) == 0
  {
  }

  lemma {:induction false} CallsCharge(v: View, failOnly: bool, first: int, m: nat, p: int)
    requires Ok(v) && 0 <= first < |v.used| && 0 <= p < |v.used|
    requires forall l :: 0 <= l < m ==> AnyQuota(Calls(v, failOnly, first, l).0)
    ensures var (u, results) := Calls(v, failOnly, first, m);
            Left(u.used[p], v.gcds[p]) + Count(results, p) == Left(v.used[p], v.gcds[p])
    decreases m
  {
    hide Select;
    hide Left;
    hide Count;
    if m > 0 {
      CallsCharge(v, failOnly, first, m - 1, p);
      var (u, results) := Calls(v, failOnly, first, m - 1);
      SelectCharges(u, failOnly, first);
      var choice := Select(u, AllWorkable(|v.used|), failOnly, first).1;
      assert Calls(v, failOnly, first, m).1 == results + [choice];
      CountExtend(results, choice, p);
    } else {
      CountNone(p);
    }
  }

  lemma {:induction false} TotalLeftDrops(a: seq<int>, b: seq<int>, gcds: seq<int>, p: int)
    requires |a| == |b| == |gcds|
    requires forall i :: 0 <= i < |a| ==> Left(b[i], gcds[i]) + (if i == p then 1 else 0) == Left(a[i], gcds[i])
    ensures TotalLeft(b, gcds) + (if 0 <= p < |a| then 1 else 0) == TotalLeft(a, gcds)
    decreases |a|
  {
    if a != [] {
      TotalLeftDrops(a[..|a| - 1], b[..|a| - 1], gcds[..|a| - 1], p);
    }
  }

  lemma {:induction false} TotalLeftZero(used: seq<int>, gcds: seq<int>)
    requires |used| == |gcds|
    ensures TotalLeft(used, gcds) == 0 <==> forall i :: 0 <= i < |used| ==> gcds[i] <= used[i]
    decreases |used|
  {
    if used != [] {
      var n := |used| - 1;
      TotalLeftZero(used[..n], gcds[..n]);
      assert forall i :: 0 <= i < n ==> used[..n][i] == used[i] && gcds[..n][i] == gcds[i];
    }
  }

  lemma AnyQuotaIffLeft(v: View)
    requires Ok(v)
    ensures AnyQuota(v) <==> TotalLeft(v.used, v.gcds) > 0
  {
    TotalLeftZero(v.used, v.gcds);
    if !AnyQuota(v) {
      forall i | 0 <= i < |v.used|
        ensures v.gcds[i] <= v.used[i]
      {
        assert !HasQuota(v, i);
      }
    }
  }

  // Before the quota left is used up, the calls lower it one by one.
  lemma {:induction false} CallsLowerTotal(v: View, failOnly: bool, first: int, m: nat)
    requires Ok(v) && 0 <= first < |v.used| && m <= TotalLeft(v.used, v.gcds)
    ensures TotalLeft(Calls(v, failOnly, first, m).0.used, v.gcds) == TotalLeft(v.used, v.gcds) - m
    decreases m
  {
    if m > 0 {
      CallsLowerTotal(v, failOnly, first, m - 1);
      var u := Calls(v, failOnly, first, m - 1).0;
      AnyQuotaIffLeft(u);
      SelectCharges(u, failOnly, first);
      var (w, choice) := Select(u, AllWorkable(|v.used|), failOnly, first);
      TotalLeftDrops(u.used, w.used, v.gcds, choice.value);
    }
  }

  // The length of a round.
  ghost function Round(v: View): nat
    requires Ok(v)
  {
    TotalLeft(Reset(v).used, v.gcds)
  }

  lemma {:induction false} CallsFrom(v: View, u: View, failOnly: bool, first: int, m: nat)
    requires Ok(v) && Ok(u) && |v.used| == |u.used| && 0 <= first < |v.used| && m > 0
    requires Select(v, AllWorkable(|v.used|), failOnly, first) == Select(u, AllWorkable(|v.used|), failOnly, first)
    ensures Calls(v, failOnly, first, m) == Calls(u, failOnly, first, m)
    decreases m
  {
    if m > 1 {
      CallsFrom(v, u, failOnly, first, m - 1);
    } else {
      assert Calls(v, failOnly, first, 0) == (v, []) && Calls(u, failOnly, first, 0) == (u, []);
    }
  }

  lemma SelectAfterReset(v: View, failOnly: bool, first: int)
    requires Ok(v) && 0 <= first < |v.used| && !AnyQuota(v) && AnyQuota(Reset(v))
    ensures var workable := AllWorkable(|v.used|);
            Select(v, workable, failOnly, first) == Select(Reset(v), workable, failOnly, first)
  {
  }

  // Main result, in either mode: when no quota is left, the next Round(v) calls, the first of which resets the
  // counters, return each pool exactly quota_gcd times, none of them but the first resets, and they use all
  // quota up, so the call after them resets again.
  lemma FairRound(v: View, failOnly: bool, first: int)
    requires Ok(v) && 0 <= first < |v.used| && !AnyQuota(v)
    requires exists i :: 0 <= i < |v.gcds| && v.gcds[i] > 0
    ensures Round(v) > 0
    ensures var (u, results) := Calls(v, failOnly, first, Round(v));
            && !AnyQuota(u)
            && (forall p :: 0 <= p < |v.used| ==> Count(results, p) == v.gcds[p])
    ensures forall m :: 0 < m < Round(v) ==> AnyQuota(Calls(v, failOnly, first, m).0)
  {
    hide Scan;
    hide Select;
    hide Calls;
    hide TotalLeft;
    hide Count;
    var r, t := Reset(v), Round(v);
    var i :| 0 <= i < |v.gcds| && v.gcds[i] > 0;
    assert HasQuota(r, i);
    AnyQuotaIffLeft(r);
    SelectAfterReset(v, failOnly, first);
    forall m | 0 < m <= t
      ensures Calls(v, failOnly, first, m) == Calls(r, failOnly, first, m)
    {
      CallsFrom(v, r, failOnly, first, m);
    }
    forall m | 0 <= m <= t
      ensures AnyQuota(Calls(r, failOnly, first, m).0) <==> m < t
    {
      CallsLowerTotal(r, failOnly, first, m);
      AnyQuotaIffLeft(Calls(r, failOnly, first, m).0);
    }
    var (u, results) := Calls(r, failOnly, first, t);
    forall p | 0 <= p < |v.used|
      ensures Count(results, p) == v.gcds[p]
    {
      CallsCharge(r, failOnly, first, t, p);
      assert Left(u.used[p], v.gcds[p]) == 0 by {
        assert !HasQuota(u, p);
      }
    }
  }

  lemma {:induction false} CallsCompose(v: View, failOnly: bool, first: int, l: nat, m: nat)
    requires Ok(v) && 0 <= first < |v.used|
    ensures var (u, before) := Calls(v, failOnly, first, l);
            var (w, after) := Calls(u, failOnly, first, m);
            Calls(v, failOnly, first, l + m) == (w, before + after)
    decreases m
  {
    hide Select;
    if m > 0 {
      CallsCompose(v, failOnly, first, l, m - 1);
      assert l + m - 1 == l + (m - 1);
      var (u, before) := Calls(v, failOnly, first, l);
      var (w, after) := Calls(u, failOnly, first, m - 1);
      var choice := Select(w, AllWorkable(|v.used|), failOnly, first).1;
      assert before + (after + [choice]) == before + after + [choice];
    } else {
      assert Calls(v, failOnly, first, l).1 + [] == Calls(v, failOnly, first, l).1;
    }
  }

  lemma {:induction false} CountConcat(a: seq<Option<int>>, b: seq<Option<int>>, p: int)
    ensures Count(a + b, p) == Count(a, p) + Count(b, p)
    decreases |b|
  {
    if b == [] {
      assert a + b == a;
    } else {
      assert (a + b)[..|a + b| - 1] == a + b[..|b| - 1];
      CountConcat(a, b[..|b| - 1], p);
    }
  }

  // Over any number of rounds the pools are served in proportion to their quotas.
  lemma {:induction false} FairRounds(v: View, failOnly: bool, first: int, rounds: nat)
    requires Ok(v) && 0 <= first < |v.used| && !AnyQuota(v)
    requires exists i :: 0 <= i < |v.gcds| && v.gcds[i] > 0
    ensures var (u, results) := Calls(v, failOnly, first, rounds * Round(v));
            && !AnyQuota(u)
            && forall p :: 0 <= p < |v.used| ==> Count(results, p) == rounds * v.gcds[p]
    decreases rounds
  {
    hide Select;
    hide Calls;
    hide Count;
    var t := Round(v);
    if rounds == 0 {
      NoCalls(v, failOnly, first);
    } else {
      FairRounds(v, failOnly, first, rounds - 1);
      var done := (rounds - 1) * t;
      OneMore(rounds, t);
      var u := Calls(v, failOnly, first, done).0;
      assert Reset(u).used == Reset(v).used;
      FairRound(u, failOnly, first);
      CallsCompose(v, failOnly, first, done, t);
      forall p | 0 <= p < |v.used|
        ensures Count(Calls(v, failOnly, first, done + t).1, p) == rounds * v.gcds[p]
      {
        CountConcat(Calls(v, failOnly, first, done).1, Calls(u, failOnly, first, t).1, p);
        OneMore(rounds, v.gcds[p]);
      }
    }
  }

  lemma NoCalls(v: View, failOnly: bool, first: int)
    requires Ok(v) && 0 <= first < |v.used|
    ensures Calls(v, failOnly, first, 0) == (v, []) && forall p :: Count(Calls(v, failOnly, first, 0).1, p) == 0
  {
  }

  lemma OneMore(k: int, x: int)
    ensures k * x == (k - 1) * x + x
  {
  }

  // ---------- safety: any workability, with discards ----------

  datatype Step = Call(workable: seq<bool>) | Discard(pool: int)

  // Net quota selections of each pool since the last reset: selections minus discards and refunds.
  datatype History = History(view: View, net: seq<int>)

  ghost predicate Steps(v: View, steps: seq<Step>) {
    forall i :: 0 <= i < |steps| ==>
      if steps[i].Call? then |steps[i].workable| == |v.used| else 0 <= steps[i].pool < |v.used|
  }

  // No counter drops by more than the refunds, and the pool returned had quota after them.
  lemma {:induction false} ScanCounts(v: View, k: nat, workable: seq<bool>, failOnly: bool, first: int)
    requires Ok(v) && |workable| == |v.used| && 0 <= first < |v.used|
    ensures var (u, choice) := Scan(v, k, workable, failOnly, first);
            var refunds := Refunds(v, k, workable, failOnly, first);
            && (forall i :: 0 <= i < |v.used| ==>
                  u.used[i] >= v.used[i] - (if i == first then refunds else 0) + (if choice == Some(i) then 1 else 0))
            && (choice.Some? ==>
                  v.used[choice.value] - (if choice.value == first then refunds else 0) < v.gcds[choice.value])
    decreases k
  {
    ScanStep(v, k, workable, failOnly, first);
    RefundsStep(v, k, workable, failOnly, first);
    hide Scan;
    hide Refunds;
    if k > 0 && !(v.used[v.rot] < v.gcds[v.rot] && workable[v.rot]) {
      ScanCounts(Skipped(v, failOnly, first), k - 1, workable, failOnly, first);
    }
  }

  // discard_work gives one use back, and so does a refund.
  ghost function NextHistory(h: History, step: Step, failOnly: bool, first: int): (r: History)
    requires Ok(h.view) && |h.net| == |h.view.used| && 0 <= first < |h.net|
    requires if step.Call? then |step.workable| == |h.net| else 0 <= step.pool < |h.net|
    ensures Ok(r.view) && |r.net| == |h.net| == |r.view.used| && r.view.gcds == h.view.gcds
  {
    match step
    case Call(workable) =>
      var start := if AnyQuota(h.view) then h.view else Reset(h.view);
      var net := if AnyQuota(h.view) then h.net else seq(|h.net|, _ => 0);
      var (u, choice) := Select(h.view, workable, failOnly, first);
      var after := if choice.Some? then net[choice.value := net[choice.value] + 1] else net;
      History(u, after[first := after[first] - Refunds(start, |h.net|, workable, failOnly, first)])
    case Discard(p) =>
      History(h.view.(used := h.view.used[p := h.view.used[p] - 1]), h.net[p := h.net[p] - 1])
  }

  ghost function RunHistory(v: View, steps: seq<Step>, failOnly: bool, first: int): (r: History)
    requires Ok(v) && 0 <= first < |v.used| && Steps(v, steps)
    ensures Ok(r.view) && |r.net| == |v.used| == |r.view.used| && r.view.gcds == v.gcds
    decreases |steps|
  {
    if steps == [] then History(Reset(v), seq(|v.used|, _ => 0))
    else NextHistory(RunHistory(v, steps[..|steps| - 1], failOnly, first), steps[|steps| - 1], failOnly, first)
  }

  ghost predicate WithinQuota(h: History) {
    && |h.net| == |h.view.used| == |h.view.gcds|
    && forall p :: 0 <= p < |h.net| ==> h.net[p] <= h.view.gcds[p] && h.net[p] <= h.view.used[p]
  }

  lemma NextWithinQuota(h: History, step: Step, failOnly: bool, first: int)
    requires Ok(h.view) && WithinQuota(h) && 0 <= first < |h.net|
    requires if step.Call? then |step.workable| == |h.net| else 0 <= step.pool < |h.net|
    ensures WithinQuota(NextHistory(h, step, failOnly, first))
  {
    hide Scan;
    hide Refunds;
    if step.Call? {
      var start := if AnyQuota(h.view) then h.view else Reset(h.view);
      var net := if AnyQuota(h.view) then h.net else seq(|h.net|, _ => 0);
      assert start.gcds == h.view.gcds && |start.used| == |h.net| == |net|;
      assert forall p :: 0 <= p < |h.net| ==> net[p] <= h.view.gcds[p] && net[p] <= start.used[p];
      CallWithinQuota(start, net, step.workable, failOnly, first);
    }
  }

  lemma {:induction false} RunWithinQuota(v: View, steps: seq<Step>, failOnly: bool, first: int)
    requires Ok(v) && 0 <= first < |v.used| && Steps(v, steps)
    ensures WithinQuota(RunHistory(v, steps, failOnly, first))
    decreases |steps|
  {
    hide NextHistory;
    hide WithinQuota;
    if steps == [] {
      StartWithinQuota(v);
    } else {
      var before, step := steps[..|steps| - 1], steps[|steps| - 1];
      RunWithinQuota(v, before, failOnly, first);
      NextWithinQuota(RunHistory(v, before, failOnly, first), step, failOnly, first);
    }
  }

  lemma StartWithinQuota(v: View)
    requires Ok(v)
    ensures WithinQuota(History(Reset(v), seq(|v.used|, _ => 0)))
  {
  }

  // In every run from a reset, a pool's selections since the last reset, less its discards and the refunds it
  // got, stay within its scaled quota. Without fail-only mode there are no refunds.
  lemma NeverOverQuota(v: View, steps: seq<Step>, failOnly: bool, first: int)
    requires Ok(v) && 0 <= first < |v.used| && Steps(v, steps)
    ensures var h := RunHistory(v, steps, failOnly, first);
            forall p :: 0 <= p < |v.used| ==> h.net[p] <= v.gcds[p] && h.net[p] <= h.view.used[p]
  {
    RunWithinQuota(v, steps, failOnly, first);
    var h := RunHistory(v, steps, failOnly, first);
    assert h.view.gcds == v.gcds;
  }

  lemma CallWithinQuota(start: View, net: seq<int>, workable: seq<bool>, failOnly: bool, first: int)
    requires Ok(start) && |workable| == |net| == |start.used| && 0 <= first < |net|
    requires forall p :: 0 <= p < |net| ==> net[p] <= start.gcds[p] && net[p] <= start.used[p]
    ensures var (u, choice) := Scan(start, |net|, workable, failOnly, first);
            var after := if choice.Some? then net[choice.value := net[choice.value] + 1] else net;
            var r := after[first := after[first] - Refunds(start, |net|, workable, failOnly, first)];
            forall p :: 0 <= p < |net| ==> r[p] <= start.gcds[p] && r[p] <= u.used[p]
  {
    hide Scan;
    hide Refunds;
    ScanCounts(start, |net|, workable, failOnly, first);
  }
}
