// Pool priorities as a sequence: element i is the priority of pools[i], 0 being served first.
module PriorityOrder {

  // The priorities are a permutation of 0, ..., n - 1.
  ghost predicate Permutation(p: seq<int>) {
    && (forall i :: 0 <= i < |p| ==> 0 <= p[i] < |p|)
    && (forall i, j :: 0 <= i < j < |p| ==> p[i] != p[j])
  }

  // ---------- the four operations ----------

  function Added(p: seq<int>): seq<int> {
    p + [|p|]
  }

  // Element k is replaced by the last one.
  function SwapOut<T>(s: seq<T>, k: nat): (r: seq<T>)
    requires k < |s|
    ensures |r| == |s| - 1
    ensures forall i :: 0 <= i < |r| ==> r[i] == if i == k then s[|s| - 1] else s[i]
  {
    s[k := s[|s| - 1]][..|s| - 1]
  }

  // Close the gap in the numbering, then let the last pool take the place of pool k.
  function Removed(p: seq<int>, k: nat): (r: seq<int>)
    requires k < |p|
    ensures |r| == |p| - 1
  {
    var q := seq(|p|, i requires 0 <= i < |p| => if p[i] > p[k] then p[i] - 1 else p[i]);
    SwapOut(q, k)
  }

  // Pool k goes first and the pools before it move down.
  function Fronted(p: seq<int>, k: nat): (r: seq<int>)
    requires k < |p|
    ensures |r| == |p|
  {
    seq(|p|, i requires 0 <= i < |p| => if i == k then 0 else if p[i] < p[k] then p[i] + 1 else p[i])
  }

  ghost function UnlistedBelow(p: seq<int>, list: seq<int>, prio: int): set<int> {
    set j | 0 <= j < |p| && j !in list && p[j] < prio
  }

  // The listed pools go first in the given order, the others follow in their old order.
  ghost function Reordered(p: seq<int>, list: seq<int>): (r: seq<int>)
    ensures |r| == |p|
  {
    seq(|p|, i requires 0 <= i < |p| =>
      if i in list then Position(list, i) else |list| + |UnlistedBelow(p, list, p[i])|)
  }

  function Position(list: seq<int>, x: int): (k: nat)
    requires x in list
    ensures k < |list| && list[k] == x
  {
    if list[0] == x then 0 else 1 + Position(list[1..], x)
  }

  // A list of pool ids poolpriority accepts.
  ghost predicate Acceptable(n: nat, list: seq<int>) {
    && (forall k :: 0 <= k < |list| ==> 0 <= list[k] < n)
    && (forall k, l :: 0 <= k < l < |list| ==> list[k] != list[l])
  }

  // ---------- every priority occurs ----------

  function Interval(n: nat): (s: set<int>)
    ensures |s| == n
    ensures forall x :: x in s <==> 0 <= x < n
  {
    if n == 0 then {} else Interval(n - 1) + {n - 1}
  }

  ghost function Values(p: seq<int>): (s: set<int>)
    ensures forall i :: 0 <= i < |p| ==> p[i] in s
    ensures forall x :: x in s ==> exists i :: 0 <= i < |p| && p[i] == x
    ensures (forall i, j :: 0 <= i < j < |p| ==> p[i] != p[j]) ==> |s| == |p|
  {
    if p == [] then {} else
      var n := |p| - 1;
      var rest := Values(p[..n]);
      assert forall i :: 0 <= i < n ==> p[i] == p[..n][i];
      rest + {p[n]}
  }

  lemma SubsetSize(a: set<int>, b: set<int>)
    requires a <= b
    ensures |a| <= |b| && (|a| == |b| ==> a == b)
  {
    var c := b - a;
    assert a + c == b && a !! c;
    assert |b| == |a| + |c|;
  }

  lemma EveryPriorityOccurs(p: seq<int>, x: int)
    requires Permutation(p) && 0 <= x < |p|
    ensures exists i :: 0 <= i < |p| && p[i] == x
  {
    SubsetSize(Values(p), Interval(|p|));
    assert x in Interval(|p|);
  }

  // ---------- each operation keeps a permutation ----------

  lemma AddedIsPermutation(p: seq<int>)
    requires Permutation(p)
    ensures Permutation(Added(p))
  {
  }

  lemma RemovedIsPermutation(p: seq<int>, k: nat)
    requires Permutation(p) && k < |p|
    ensures Permutation(Removed(p, k))
  {
    // The largest value that survives is at most n - 2: values above p[k] drop by one, and none equals n - 1
    // without being above p[k] or p[k] itself.
    var r := Removed(p, k);
    forall i | 0 <= i < |r|
      ensures 0 <= r[i] < |r|
    {
      var j := if i == k then |p| - 1 else i;
      assert r[i] == if p[j] > p[k] then p[j] - 1 else p[j];
      assert p[j] != p[k];
    }
    forall i, j | 0 <= i < j < |r|
      ensures r[i] != r[j]
    {
      var a, b := if i == k then |p| - 1 else i, if j == k then |p| - 1 else j;
      assert p[a] != p[b] && p[a] != p[k] && p[b] != p[k];
    }
  }

  // The surviving pools keep their order.
  lemma RemovedKeepsOrder(p: seq<int>, k: nat, i: nat, j: nat)
    requires Permutation(p) && k < |p| && i < |p| - 1 && j < |p| - 1
    ensures var a, b := if i == k then |p| - 1 else i, if j == k then |p| - 1 else j;
            Removed(p, k)[i] < Removed(p, k)[j] <==> p[a] < p[b]
  {
    var a, b := if i == k then |p| - 1 else i, if j == k then |p| - 1 else j;
    assert a != k && b != k;
    assert p[a] != p[k] && p[b] != p[k];
  }

  lemma FrontedIsPermutation(p: seq<int>, k: nat)
    requires Permutation(p) && k < |p|
    ensures Permutation(Fronted(p, k)) && Fronted(p, k)[k] == 0
    ensures forall i, j :: 0 <= i < |p| && 0 <= j < |p| && i != k && j != k
              ==> (Fronted(p, k)[i] < Fronted(p, k)[j] <==> p[i] < p[j])
  {
    var r := Fronted(p, k);
    forall i | 0 <= i < |p| && i != k
      ensures 0 < r[i] < |p| && p[i] != p[k]
    {
    }
  }

  lemma ShiftedIsFronted(p: seq<int>, q: seq<int>, k: nat)
    requires |q| == |p| && k < |p|
    requires forall i :: 0 <= i < |p| ==> q[i] == if p[i] < p[k] then p[i] + 1 else p[i]
    ensures q[k := 0] == Fronted(p, k)
  {
  }

  lemma AlreadyFirst(p: seq<int>, k: nat)
    requires Permutation(p) && k < |p| && p[k] == 0
    ensures Fronted(p, k) == p
  {
  }

  // The new number of an unlisted pool exceeds those of the listed pools and of the unlisted ones before it.
  lemma UnlistedRank(p: seq<int>, list: seq<int>, i: nat)
    requires Permutation(p) && Acceptable(|p|, list) && i < |p| && i !in list
    ensures |list| <= Reordered(p, list)[i] < |p|
  {
    var below, listed := UnlistedBelow(p, list, p[i]), Values(list);
    assert i !in below && i !in listed && below !! listed;
    assert |below + {i} + listed| == |below| + 1 + |list|;
    SubsetSize(below + {i} + listed, Interval(|p|));
  }

  lemma UnlistedKeepOrder(p: seq<int>, list: seq<int>, i: nat, j: nat)
    requires i < |p| && j < |p| && i !in list && j !in list && p[i] < p[j]
    ensures Reordered(p, list)[i] < Reordered(p, list)[j]
  {
    var a, b := UnlistedBelow(p, list, p[i]), UnlistedBelow(p, list, p[j]);
    assert a + {i} <= b && i !in a;
    SubsetSize(a + {i}, b);
  }

  // Priorities being distinct, one more priority number admits at most one more pool.
  lemma UnlistedBelowStep(p: seq<int>, list: seq<int>, i: nat)
    requires Permutation(p) && i < |p| && i !in list
    ensures UnlistedBelow(p, list, p[i] + 1) == UnlistedBelow(p, list, p[i]) + {i}
    ensures |UnlistedBelow(p, list, p[i] + 1)| == |UnlistedBelow(p, list, p[i])| + 1
    ensures forall j :: 0 <= j < |p| && p[j] < p[i] + 1 ==> j == i || p[j] < p[i]
  {
  }

  lemma UnlistedOrder(p: seq<int>, list: seq<int>, i: nat, j: nat)
    requires i < |p| && j < |p| && i !in list && j !in list
    ensures Reordered(p, list)[i] < Reordered(p, list)[j] <==> p[i] < p[j]
  {
    if p[i] < p[j] {
      UnlistedKeepOrder(p, list, i, j);
    } else if p[j] < p[i] {
      UnlistedKeepOrder(p, list, j, i);
    }
  }

  lemma PositionUnique(list: seq<int>, k: nat)
    requires k < |list| && forall i, j :: 0 <= i < j < |list| ==> list[i] != list[j]
    ensures Position(list, list[k]) == k
  {
  }

  // poolpriority: the listed pools come first in the given order, the others keep their relative order
  // behind them, and the result numbers all pools again.
  lemma ReorderedIsPermutation(p: seq<int>, list: seq<int>)
    requires Permutation(p) && Acceptable(|p|, list)
    ensures var r := Reordered(p, list);
            && Permutation(r)
            && (forall k :: 0 <= k < |list| ==> r[list[k]] == k)
            && (forall i :: 0 <= i < |p| && i !in list ==> r[i] >= |list|)
            && (forall i, j :: 0 <= i < |p| && 0 <= j < |p| && i !in list && j !in list
                  ==> (r[i] < r[j] <==> p[i] < p[j]))
  {
    var r := Reordered(p, list);
    SubsetSize(Values(list), Interval(|p|));
    hide Values;
    hide Interval;
    forall k | 0 <= k < |list|
      ensures r[list[k]] == k
    {
      PositionUnique(list, k);
    }
    forall i | 0 <= i < |p|
      ensures 0 <= r[i] < |p| && (i !in list ==> |list| <= r[i])
    {
      if i !in list {
        UnlistedRank(p, list, i);
      }
    }
    hide Reordered;
    hide UnlistedBelow;
    forall i, j | 0 <= i < |p| && 0 <= j < |p| && i !in list && j !in list
      ensures r[i] < r[j] <==> p[i] < p[j]
    {
      UnlistedOrder(p, list, i, j);
    }
    forall i, j | 0 <= i < j < |p|
      ensures r[i] != r[j]
    {
      ReorderedDiffer(p, list, i, j);
    }
  }

  lemma ReorderedDiffer(p: seq<int>, list: seq<int>, i: nat, j: nat)
    requires Permutation(p) && Acceptable(|p|, list) && i < j < |p|
    ensures Reordered(p, list)[i] != Reordered(p, list)[j]
  {
    if i in list && j in list {
      assert list[Position(list, i)] == i && list[Position(list, j)] == j;
    } else if i !in list && j !in list {
      if p[i] < p[j] {
        UnlistedKeepOrder(p, list, i, j);
      } else {
        UnlistedKeepOrder(p, list, j, i);
      }
    }
  }

  // ---------- every reachable state ----------

  datatype Op = Add | Remove(k: int) | Front(k: int) | Reorder(list: seq<int>)

  ghost function Apply(p: seq<int>, op: Op): seq<int> {
    match op
    case Add => Added(p)
    case Remove(k) => if 0 <= k < |p| then Removed(p, k) else p
    case Front(k) => if 0 <= k < |p| then Fronted(p, k) else p
    case Reorder(list) => if Acceptable(|p|, list) then Reordered(p, list) else p
  }

  ghost function ApplyAll(ops: seq<Op>): seq<int> {
    if ops == [] then [] else Apply(ApplyAll(ops[..|ops| - 1]), ops[|ops| - 1])
  }

  lemma {:induction false} ReachableIsPermutation(ops: seq<Op>)
    ensures Permutation(ApplyAll(ops))
  {
    if ops != [] {
      ReachableIsPermutation(ops[..|ops| - 1]);
      var p, op := ApplyAll(ops[..|ops| - 1]), ops[|ops| - 1];
      match op
      case Add => AddedIsPermutation(p);
      case Remove(k) => if 0 <= k < |p| { RemovedIsPermutation(p, k); }
      case Front(k) => if 0 <= k < |p| { FrontedIsPermutation(p, k); }
      case Reorder(list) => if Acceptable(|p|, list) { ReorderedIsPermutation(p, list); }
    }
  }
}
