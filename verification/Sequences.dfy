// What several of the other modules need about sequences.
module Sequences {

  ghost predicate Distinct<T>(s: seq<T>) {
    forall i, j :: 0 <= i < j < |s| ==> s[i] != s[j]
  }

  lemma SplitAt<T>(s: seq<T>, i: nat)
    requires i < |s|
    ensures s == s[..i] + [s[i]] + s[i + 1..]
  {
  }

  lemma Regroup<T>(a: seq<T>, b: seq<T>, c: seq<T>)
    ensures a + (b + c) == (a + b) + c
  {
  }

  // The position j places after i in a cycle of n.
  function Onward(i: int, j: int, n: int): (r: int)
    ensures 0 <= i < n && 0 <= j <= n ==> 0 <= r < n && (r - i == j || r - i == j - n)
  {
    if i + j < n then i + j else i + j - n
  }

  // What is left of a list when an iteration deletes the elements that have to go.
  function Kept<T>(s: seq<T>, goes: T -> bool): (r: seq<T>)
    ensures |r| <= |s|
  {
    if s == [] then []
    else Kept(s[..|s| - 1], goes) + if goes(s[|s| - 1]) then [] else [s[|s| - 1]]
  }

  lemma KeptStep<T>(s: seq<T>, goes: T -> bool)
    requires s != []
    ensures Kept(s, goes) == Kept(s[..|s| - 1], goes) + if goes(s[|s| - 1]) then [] else [s[|s| - 1]]
  {
  }

  lemma {:induction false} KeptMembers<T>(s: seq<T>, goes: T -> bool)
    ensures var t := Kept(s, goes);
            && (forall i :: 0 <= i < |t| ==> t[i] in s && !goes(t[i]))
            && (forall i :: 0 <= i < |s| && !goes(s[i]) ==> s[i] in t)
  {
    if s != [] {
      var n := |s| - 1;
      var t := Kept(s[..n], goes);
      KeptMembers(s[..n], goes);
      forall i | 0 <= i < |t|
        ensures t[i] in s
      {
        assert t[i] in s[..n];
      }
      assert s == s[..n] + [s[n]];
    }
  }

  // What is left of two lists in a row, and of a list of one.
  lemma {:induction false} KeptConcat<T>(a: seq<T>, b: seq<T>, x: T, goes: T -> bool)
    ensures Kept(a + b, goes) == Kept(a, goes) + Kept(b, goes)
    ensures Kept([x], goes) == if goes(x) then [] else [x]
    decreases |b|
  {
    KeptStep([x], goes);
    if b == [] {
      assert a + b == a;
    } else {
      var n := |b| - 1;
      KeptConcat(a, b[..n], x, goes);
      assert (a + b)[..|a + b| - 1] == a + b[..n];
    }
  }

  // Deleting twice is deleting what has to go either time.
  lemma {:induction false} KeptTwice<T>(s: seq<T>, p: T -> bool, q: T -> bool, r: T -> bool)
    requires forall x :: r(x) <==> p(x) || q(x)
    ensures Kept(Kept(s, p), q) == Kept(s, r)
  {
    KeptNone(q);
    if s != [] {
      var n := |s| - 1;
      KeptTwice(s[..n], p, q, r);
      var t := Kept(s[..n], p);
      KeptConcat(t, if p(s[n]) then [] else [s[n]], s[n], q);
      assert t + [] == t;
    }
  }

  lemma {:induction false} KeptAll<T>(s: seq<T>, goes: T -> bool)
    requires forall i :: 0 <= i < |s| ==> !goes(s[i])
    ensures Kept(s, goes) == s
  {
    if s != [] {
      var n := |s| - 1;
      KeptAll(s[..n], goes);
      assert s == s[..n] + [s[n]];
    }
  }

  lemma KeptNone<T>(goes: T -> bool)
    ensures Kept([], goes) == []
  {
  }

  // The deleting loop has seen k elements of `all`, kept i of them, and the list is s.
  ghost predicate Sweeping<T>(all: seq<T>, goes: T -> bool, k: nat, i: nat, s: seq<T>) {
    k <= |all| && i == |Kept(all[..k], goes)| && s == Kept(all[..k], goes) + all[k..]
  }

  lemma SweepStarts<T>(all: seq<T>, goes: T -> bool)
    ensures Sweeping(all, goes, 0, 0, all)
  {
    assert all[..0] == [] && all[0..] == all;
  }

  lemma SweepStep<T>(all: seq<T>, goes: T -> bool, k: nat, i: nat, s: seq<T>)
    requires Sweeping(all, goes, k, i, s) && i < |s|
    ensures goes(s[i]) ==> Sweeping(all, goes, k + 1, i, s[..i] + s[i + 1..])
    ensures !goes(s[i]) ==> Sweeping(all, goes, k + 1, i + 1, s)
  {
    assert all[..k + 1][..k] == all[..k];
    assert all[k..] == [all[k]] + all[k + 1..];
    KeptStep(all[..k + 1], goes);
    hide Kept;
    assert s[i] == all[k] == all[..k + 1][k];
    assert s[..i] == Kept(all[..k], goes) && s[i + 1..] == all[k + 1..];
  }

  lemma SweepEnds<T>(all: seq<T>, goes: T -> bool, k: nat, i: nat, s: seq<T>)
    requires Sweeping(all, goes, k, i, s) && i >= |s|
    ensures s == Kept(all, goes)
  {
    hide Kept;
    assert all[..k] == all;
  }
}
