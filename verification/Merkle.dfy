// Merkle roots: the in-place reduction for block templates, and the branch fold for stratum.
// A node stands for 32 bytes; `h` hashes the 64 bytes of two nodes.
module Merkle {

  // ---------- the recursive definition ----------

  // A level of odd length is completed by repeating its last node.
  function Padded<T>(level: seq<T>): (r: seq<T>)
    ensures |r| == |level| + |level| % 2
  {
    if |level| % 2 == 0 then level else level + [level[|level| - 1]]
  }

  // The level above: one hash for each pair.
  function Above<T>(h: (T, T) -> T, level: seq<T>): (r: seq<T>)
    ensures |r| == (|level| + 1) / 2
  {
    var p := Padded(level);
    seq(|p| / 2, i requires 0 <= i < |p| / 2 => h(p[2 * i], p[2 * i + 1]))
  }

  function Root<T>(h: (T, T) -> T, level: seq<T>): T
    requires |level| > 0
    decreases |level|
  {
    if |level| == 1 then level[0] else Root(h, Above(h, level))
  }

  // ---------- the in-place reduction ----------

  // __gbt_merkleroot: the buffer has room for n + 2 nodes, of which the first n + 1 are the leaves; the
  // root ends up in node 0.
  method GbtMerkleRoot<T>(h: (T, T) -> T, zero: T, coinbaseHash: T, txnHashes: seq<T>) returns (merkleHash: array<T>)
    ensures merkleHash.Length == |txnHashes| + 2
    ensures merkleHash[0] == Root(h, [coinbaseHash] + txnHashes)
  {
    hide Above;
    hide Padded;
    var gbtTxns := |txnHashes|;
    merkleHash := new T[gbtTxns + 2](_ => zero);
    merkleHash[0] := coinbaseHash;
    forall i | 0 <= i < gbtTxns {
      merkleHash[i + 1] := txnHashes[i];
    }
    ghost var leaves := [coinbaseHash] + txnHashes;
    assert merkleHash[..gbtTxns + 1] == leaves;

    var txns := gbtTxns + 1;
    while txns > 1
      invariant 1 <= txns <= gbtTxns + 1
      invariant Root(h, merkleHash[..txns]) == Root(h, leaves)
    {
      txns := HashLevel(h, merkleHash, txns);
    }
    assert merkleHash[..txns] == [merkleHash[0]];
  }

  // One round: complete the level to an even length, then hash it pair by pair onto its own front half.
  method HashLevel<T>(h: (T, T) -> T, merkleHash: array<T>, txns: nat) returns (half: nat)
    requires 1 < txns < merkleHash.Length
    modifies merkleHash
    ensures half == (txns + 1) / 2
    ensures merkleHash[..half] == Above(h, old(merkleHash[..txns]))
  {
    ghost var level := merkleHash[..txns];
    var n := Complete(merkleHash, txns);
    LevelStarts(h, merkleHash[..], level, n);
    hide Padded;
    hide Above;
    hide HalfHashed;
    var i := 0;
    while i < n
      invariant 0 <= i <= n && i % 2 == 0
      invariant HalfHashed(h, merkleHash[..], level, n, i)
    {
      LevelStep(h, merkleHash[..], level, n, i);
      ghost var before := merkleHash[..];
      var hashOut := h(merkleHash[i], merkleHash[i + 1]);
      merkleHash[i / 2] := hashOut;
      assert merkleHash[..] == before[i / 2 := hashOut];
      i := i + 2;
    }
    half := n / 2;
    LevelEnds(h, merkleHash[..], level, n);
  }

  // The front half holds the hashes of the first i nodes, which it has overwritten; the others are as before.
  ghost predicate HalfHashed<T>(h: (T, T) -> T, a: seq<T>, level: seq<T>, n: nat, i: nat) {
    && n == |Padded(level)| <= |a| && i <= n && i % 2 == 0
    && (forall k :: 0 <= k < i / 2 ==> a[k] == Above(h, level)[k])
    && (forall k :: i <= k < n ==> a[k] == Padded(level)[k])
  }

  lemma LevelStarts<T>(h: (T, T) -> T, a: seq<T>, level: seq<T>, n: nat)
    requires n == |Padded(level)| <= |a| && a[..n] == Padded(level)
    ensures HalfHashed(h, a, level, n, 0)
  {
    hide Above;
  }

  lemma LevelStep<T>(h: (T, T) -> T, a: seq<T>, level: seq<T>, n: nat, i: nat)
    requires HalfHashed(h, a, level, n, i) && i < n
    ensures i + 1 < n <= |a| && HalfHashed(h, a[i / 2 := h(a[i], a[i + 1])], level, n, i + 2)
  {
    PairHash(h, level, i / 2);
    hide Above;
    hide Padded;
  }

  lemma LevelEnds<T>(h: (T, T) -> T, a: seq<T>, level: seq<T>, n: nat)
    requires HalfHashed(h, a, level, n, n)
    ensures n / 2 <= |a| && a[..n / 2] == Above(h, level)
  {
    hide Padded;
    hide Above;
  }

  // Repeat the last node of a level of odd length.
  method Complete<T>(merkleHash: array<T>, txns: nat) returns (n: nat)
    requires 1 < txns < merkleHash.Length
    modifies merkleHash
    ensures n == txns + txns % 2 && merkleHash[..n] == Padded(old(merkleHash[..txns]))
  {
    n := txns;
    if n % 2 == 1 {
      merkleHash[n] := merkleHash[n - 1];
      n := n + 1;
    }
  }

  lemma PairHash<T>(h: (T, T) -> T, level: seq<T>, k: nat)
    requires k < |Above(h, level)|
    ensures Above(h, level)[k] == h(Padded(level)[2 * k], Padded(level)[2 * k + 1])
  {
  }

  // ---------- the stratum branch ----------

  // The siblings of leaf 0, level by level.
  function Branch<T>(h: (T, T) -> T, level: seq<T>): seq<T>
    requires |level| > 0
    decreases |level|
  {
    if |level| == 1 then [] else [level[1]] + Branch(h, Above(h, level))
  }

  function Fold<T>(h: (T, T) -> T, coinbaseHash: T, branch: seq<T>): T {
    if branch == [] then coinbaseHash
    else h(Fold(h, coinbaseHash, branch[..|branch| - 1]), branch[|branch| - 1])
  }

  // The loop of gen_stratum_work.
  method StratumMerkleRoot<T>(h: (T, T) -> T, coinbaseHash: T, merkleBin: seq<T>) returns (merkleRoot: T)
    ensures merkleRoot == Fold(h, coinbaseHash, merkleBin)
  {
    merkleRoot := coinbaseHash;
    var merkleSha := merkleRoot;
    var i := 0;
    while i < |merkleBin|
      invariant 0 <= i <= |merkleBin|
      invariant merkleSha == merkleRoot == Fold(h, coinbaseHash, merkleBin[..i])
    {
      assert merkleBin[..i + 1][..i] == merkleBin[..i];
      merkleRoot := h(merkleSha, merkleBin[i]);
      merkleSha := merkleRoot;
      i := i + 1;
    }
    assert merkleBin[..i] == merkleBin;
  }

  lemma {:induction false} FoldFirst<T>(h: (T, T) -> T, c: T, branch: seq<T>)
    requires |branch| > 0
    ensures Fold(h, c, branch) == Fold(h, h(c, branch[0]), branch[1..])
    decreases |branch|
  {
    if |branch| == 1 {
      assert branch[..0] == [] && branch[1..] == [];
    } else {
      var n := |branch| - 1;
      FoldFirst(h, c, branch[..n]);
      assert branch[..n][1..] == branch[1..][..n - 1];
    }
  }

  // Both programs compute the same root.
  lemma {:induction false} FoldOfBranchIsRoot<T>(h: (T, T) -> T, level: seq<T>)
    requires |level| > 0
    ensures Fold(h, level[0], Branch(h, level)) == Root(h, level)
    decreases |level|
  {
    if |level| > 1 {
      PairHash(h, level, 0);
      hide Above;
      var above := Above(h, level);
      FoldOfBranchIsRoot(h, above);
      assert Branch(h, level) == [level[1]] + Branch(h, above);
      assert Branch(h, level)[1..] == Branch(h, above);
      FoldFirst(h, level[0], Branch(h, level));
      hide Fold;
    }
  }

  // Changing leaf 0 changes node 0 of every level and nothing else.
  lemma AboveIgnoresLeafZero<T>(h: (T, T) -> T, level: seq<T>, c: T)
    requires |level| > 1
    ensures Above(h, level[0 := c]) == Above(h, level)[0 := h(c, level[1])]
  {
    var other := level[0 := c];
    forall i | 0 <= i < |Above(h, level)|
      ensures Above(h, other)[i] == Above(h, level)[0 := h(c, level[1])][i]
    {
      PairHash(h, level, i);
      PairHash(h, other, i);
    }
  }

  // The branch does not depend on the coinbase, so one branch serves every nonce2.
  lemma {:induction false} BranchIgnoresLeafZero<T>(h: (T, T) -> T, level: seq<T>, c: T)
    requires |level| > 0
    ensures Branch(h, level[0 := c]) == Branch(h, level)
    decreases |level|
  {
    if |level| > 1 {
      AboveIgnoresLeafZero(h, level, c);
      hide Above;
      BranchIgnoresLeafZero(h, Above(h, level), h(c, level[1]));
    }
  }

  // Hence: a branch taken once, with any coinbase, yields the block template root of every other coinbase.
  lemma StratumAgreesWithGbt<T>(h: (T, T) -> T, template: T, coinbaseHash: T, txnHashes: seq<T>)
    ensures Fold(h, coinbaseHash, Branch(h, [template] + txnHashes)) == Root(h, [coinbaseHash] + txnHashes)
  {
    hide Branch;
    hide Fold;
    hide Root;
    var leaves := [template] + txnHashes;
    BranchIgnoresLeafZero(h, leaves, coinbaseHash);
    assert leaves[0 := coinbaseHash] == [coinbaseHash] + txnHashes;
    FoldOfBranchIsRoot(h, [coinbaseHash] + txnHashes);
  }

  function Pow2(k: nat): nat {
    if k == 0 then 1 else 2 * Pow2(k - 1)
  }

  // The branch has the length of the tree's height: the least k with 2^k >= number of leaves.
  lemma {:induction false} BranchLength<T>(h: (T, T) -> T, level: seq<T>)
    requires |level| > 0
    ensures var k := |Branch(h, level)|;
            |level| <= Pow2(k) && (k > 0 ==> Pow2(k - 1) < |level|)
    decreases |level|
  {
    hide Above;
    if |level| > 1 {
      BranchLength(h, Above(h, level));
    }
  }

  // ---------- the level-by-level root is the root of a binary tree ----------

  lemma {:induction false} AboveConcat<T>(h: (T, T) -> T, left: seq<T>, right: seq<T>)
    requires |left| % 2 == 0
    ensures Above(h, left + right) == Above(h, left) + Above(h, right)
  {
    var p, q := Padded(left + right), Padded(right);
    assert p == left + q;
    forall i | 0 <= i < |p| / 2
      ensures Above(h, left + right)[i] == (Above(h, left) + Above(h, right))[i]
    {
      PairHash(h, left + right, i);
      if i < |left| / 2 {
        PairHash(h, left, i);
      } else {
        PairHash(h, right, i - |left| / 2);
      }
    }
  }

  // The node that covers `level` at height k: a shorter level is lifted by hashing it with itself.
  function Lift<T>(h: (T, T) -> T, level: seq<T>, k: nat): T
    requires |level| > 0
    decreases k
  {
    if k == 0 then level[0] else Lift(h, Above(h, level), k - 1)
  }

  lemma Pow2Positive(k: nat)
    ensures Pow2(k) > 0
  {
  }

  lemma AboveTwo<T>(h: (T, T) -> T, x: T, y: T)
    ensures Above(h, [x, y]) == [h(x, y)]
  {
  }

  // The root of 2^k + m leaves, 0 < m <= 2^k, hashes the root of the first 2^k leaves with the node of
  // height k over the others.
  lemma {:induction false} RootOfHalves<T>(h: (T, T) -> T, left: seq<T>, right: seq<T>, k: nat)
    requires |left| == Pow2(k) && 0 < |right| <= Pow2(k)
    ensures Root(h, left + right) == h(Root(h, left), Lift(h, right, k))
    decreases k
  {
    hide Above;
    Pow2Positive(k);
    if k == 0 {
      AboveTwo(h, left[0], right[0]);
      assert left + right == [left[0], right[0]];
    } else {
      Pow2Positive(k - 1);
      AboveConcat(h, left, right);
      RootOfHalves(h, Above(h, left), Above(h, right), k - 1);
    }
  }
}
