// Index arithmetic of the circular buffers used by the KnC and HashFast drivers.
//
// A ring of n slots keeps the index `read` of the last slot that was consumed and the index `write` of the
// next slot to fill.  The occupied slots are read + 1, ..., write - 1 modulo n.  The ring is empty when
// read + 1 == write and full (n - 1 occupied slots) when read == write.
module Ring {
  import opened Wrappers

  // The drivers advance an index with a compare-and-reset, not with a modulo.
  function Increment(i: int, n: nat): (r: int) {
    if i >= n - 1 then 0 else i + 1
  }

  ghost predicate Bounds(read: int, write: int, n: nat) {
    0 <= read < n && 0 <= write < n
  }

  function Len(read: int, write: int, n: nat): nat
    requires Bounds(read, write, n)
  {
    if read < write then write - read - 1 else write - read - 1 + n
  }

  // The array index of the k-th occupied slot.
  function Index(read: int, k: nat, n: nat): int {
    if read + 1 + k < n then read + 1 + k else read + 1 + k - n
  }

  // The inverse of Index: the distance of slot i from the first occupied one.
  function Offset(read: int, i: int, n: nat): int {
    if i > read then i - read - 1 else i - read - 1 + n
  }

  ghost predicate Occupied(i: int, read: int, write: int, n: nat)
    requires Bounds(read, write, n)
  {
    0 <= i < n && Offset(read, i, n) < Len(read, write, n)
  }

  // The occupied slots hold q, oldest first, and all other slots are null.
  ghost predicate Holds<T>(a: seq<Option<T>>, read: int, write: int, q: seq<T>) {
    && Bounds(read, write, |a|)
    && |q| == Len(read, write, |a|)
    && (forall k :: 0 <= k < |q| ==> a[Index(read, k, |a|)] == Some(q[k]))
    && (forall i :: 0 <= i < |a| && !Occupied(i, read, write, |a|) ==> a[i] == None)
  }

  lemma Push<T>(a: seq<Option<T>>, read: int, write: int, q: seq<T>, x: T)
    requires Holds(a, read, write, q) && read != write
    ensures Holds(a[write := Some(x)], read, Increment(write, |a|), q + [x])
  {
  }

  lemma Pop<T>(a: seq<Option<T>>, read: int, write: int, q: seq<T>)
    requires Holds(a, read, write, q) && |q| > 0
    ensures var r := Increment(read, |a|);
            && a[r] == Some(q[0])
            && Holds(a[r := None], r, write, q[1..])
  {
    var r := Increment(read, |a|);
    assert r == Index(read, 0, |a|);
    forall k | 0 <= k < |q[1..]|
      ensures a[r := None][Index(r, k, |a|)] == Some(q[1..][k])
    {
      assert q[1..][k] == q[k + 1] && Index(r, k, |a|) == Index(read, k + 1, |a|);
    }
  }

  lemma Overwrite<T>(a: seq<Option<T>>, read: int, write: int, q: seq<T>, p: nat, x: T)
    requires Holds(a, read, write, q) && p < |q|
    ensures Holds(a[Index(read, p, |a|) := Some(x)], read, write, q[p := x])
  {
  }
}
