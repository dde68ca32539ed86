// Circular doubly linked lists on the heap (elist.h). A list is its head followed by its entries, and
// the last entry is linked back to the head.
module Lists {
  import opened Sequences

  class Node<T> {
    const item: T
    var next: Node?<T>
    var prev: Node?<T>

    constructor (item: T)
      ensures this.item == item && next == null && prev == null
    {
      this.item, next, prev := item, null, null;
    }
  }

  ghost predicate Disjoint<T>(a: seq<Node<T>>, b: seq<Node<T>>) {
    forall i, j :: 0 <= i < |a| && 0 <= j < |b| ==> a[i] != b[j]
  }

  ghost predicate Linked<T>(a: Node<T>, b: Node<T>)
    reads a`next, b`prev
  {
    a.next == b && b.prev == a
  }

  // The node after the i-th, round the ring.
  ghost function After<T>(r: seq<Node<T>>, i: nat): Node<T>
    requires i < |r|
  {
    if i + 1 < |r| then r[i + 1] else r[0]
  }

  // next and prev are inverse to each other along the nodes of r, once round.
  ghost predicate Ring<T>(r: seq<Node<T>>)
    reads r
  {
    && r != []
    && Distinct(r)
    && (forall i :: 0 <= i < |r| ==> Linked(r[i], After(r, i)))
  }

  // The ends of a ring.
  lemma RingEnds<T>(r: seq<Node<T>>)
    requires Ring(r)
    ensures r[0].prev == r[|r| - 1] && r[|r| - 1].next == r[0]
    ensures r[0].next == After(r, 0)
    ensures r[0].next == r[0] <==> |r| == 1
  {
    assert Linked(r[|r| - 1], After(r, |r| - 1));
    assert Linked(r[0], After(r, 0));
  }

  // A ring without its links: the part of each list that a splice cuts and joins again.
  ghost predicate Chain<T>(s: seq<Node<T>>)
    reads s
  {
    forall i :: 0 <= i < |s| - 1 ==> Linked(s[i], s[i + 1])
  }

  lemma RingIsClosedChain<T>(r: seq<Node<T>>)
    requires r != []
    ensures Ring(r) <==> Distinct(r) && Chain(r) && Linked(r[|r| - 1], r[0])
  {
    assert After(r, |r| - 1) == r[0];
    assert forall i :: 0 <= i < |r| - 1 ==> After(r, i) == r[i + 1];
    if Ring(r) {
      assert Linked(r[|r| - 1], After(r, |r| - 1));
      forall i | 0 <= i < |r| - 1
        ensures Linked(r[i], r[i + 1])
      {
        assert Linked(r[i], After(r, i));
      }
    }
  }

  twostate lemma ChainKept<T>(s: seq<Node<T>>)
    requires old(Chain(s))
    requires forall i :: 0 <= i < |s| - 1 ==> s[i].next == old(s[i].next)
    requires forall i :: 0 < i < |s| ==> s[i].prev == old(s[i].prev)
    ensures Chain(s)
  {
    forall i | 0 <= i < |s| - 1
      ensures Linked(s[i], s[i + 1])
    {
      assert old(Linked(s[i], s[i + 1]));
    }
  }

  lemma ChainConcat<T>(a: seq<Node<T>>, b: seq<Node<T>>)
    ensures Chain(a + b) <==> Chain(a) && Chain(b) && (a != [] && b != [] ==> Linked(a[|a| - 1], b[0]))
  {
    var s := a + b;
    assert forall i :: 0 <= i < |a| ==> s[i] == a[i];
    assert forall i :: 0 <= i < |b| ==> s[|a| + i] == b[i];
    if Chain(s) {
      forall i | 0 <= i < |b| - 1
        ensures Linked(b[i], b[i + 1])
      {
        assert Linked(s[|a| + i], s[|a| + i + 1]);
      }
      if a != [] && b != [] {
        assert Linked(s[|a| - 1], s[|a|]);
      }
    }
    if Chain(a) && Chain(b) && (a != [] && b != [] ==> Linked(a[|a| - 1], b[0])) {
      forall i | 0 <= i < |s| - 1
        ensures Linked(s[i], s[i + 1])
      {
        if i >= |a| {
          assert Linked(b[i - |a|], b[i - |a| + 1]);
        }
      }
    }
  }

  lemma DistinctConcat<T>(a: seq<Node<T>>, b: seq<Node<T>>)
    ensures Distinct(a + b) <==> Distinct(a) && Distinct(b) && Disjoint(a, b)
  {
    var s := a + b;
    assert forall i :: 0 <= i < |a| ==> s[i] == a[i];
    assert forall i :: 0 <= i < |b| ==> s[|a| + i] == b[i];
  }

  lemma Apart<T>(a: seq<Node<T>>, b: seq<Node<T>>)
    requires Disjoint(a, b)
    ensures forall x :: x in a ==> x !in b
  {
  }

  lemma RingHead<T>(head: Node<T>, s: seq<Node<T>>)
    requires Ring([head] + s)
    ensures head !in s
  {
    DistinctConcat([head], s);
    Apart([head], s);
    assert head in [head];
  }

  // A ring has no beginning: it may be read from any of its nodes.
  lemma Rotate<T>(a: seq<Node<T>>, b: seq<Node<T>>)
    requires Ring(a + b)
    ensures Ring(b + a)
  {
    if a == [] || b == [] {
      assert a + b == b + a;
    } else {
      var r, q := a + b, b + a;
      RingIsClosedChain(r);
      RingIsClosedChain(q);
      ChainConcat(a, b);
      ChainConcat(b, a);
      DistinctConcat(a, b);
      DistinctConcat(b, a);
      assert r[0] == a[0] && r[|r| - 1] == b[|b| - 1];
      assert q[0] == b[0] && q[|q| - 1] == a[|a| - 1];
    }
  }

  // The links determine the list: no two sequences are the ring of one head.
  lemma RingUnique<T>(head: Node<T>, s: seq<Node<T>>, t: seq<Node<T>>)
    requires Ring([head] + s) && Ring([head] + t)
    ensures s == t
  {
    RingPrefix(head, s, t, |s|);
    RingPrefix(head, t, s, |t|);
  }

  lemma {:induction false} RingPrefix<T>(head: Node<T>, s: seq<Node<T>>, t: seq<Node<T>>, n: nat)
    requires Ring([head] + s) && Ring([head] + t) && n <= |s|
    ensures n <= |t| && s[..n] == t[..n]
  {
    if n > 0 {
      RingPrefix(head, s, t, n - 1);
      RingHead(head, s);
      var p, q := [head] + s, [head] + t;
      assert p[n - 1] == q[n - 1];
      assert Linked(p[n - 1], After(p, n - 1)) && Linked(q[n - 1], After(q, n - 1));
      assert s[n - 1] == p[n] && s[n - 1] != head;
    }
  }

  // INIT_LIST_HEAD
  method Init<T>(head: Node<T>)
    modifies head
    ensures Ring([head])
  {
    head.next := head;
    head.prev := head;
  }

  // __list_add: the new node goes between prev and next, here the last and first node of a ring.
  method AddBetween<T>(node: Node<T>, prev: Node<T>, next: Node<T>, ghost r: seq<Node<T>>)
    requires Ring(r) && node !in r && prev == r[|r| - 1] && next == r[0]
    modifies node`next, node`prev, prev`next, next`prev
    ensures Ring(r + [node])
  {
    RingIsClosedChain(r);
    next.prev := node;
    node.next := next;
    node.prev := prev;
    prev.next := node;
    assert Chain(r);
    ChainConcat(r, [node]);
    DistinctConcat(r, [node]);
    RingIsClosedChain(r + [node]);
  }

  // list_add: the new node becomes the first entry.
  method Add<T>(node: Node<T>, head: Node<T>, ghost s: seq<Node<T>>)
    requires Ring([head] + s) && node !in [head] + s
    modifies node, head, s
    ensures Ring([head] + [node] + s)
  {
    Rotate([head], s);
    RingEnds([head] + s);
    RingEnds(s + [head]);
    AddBetween(node, head, head.next, s + [head]);
    assert s + [head] + [node] == s + ([head] + [node]);
    Rotate(s, [head] + [node]);
  }

  // list_add_tail: the new node becomes the last entry.
  method AddTail<T>(node: Node<T>, head: Node<T>, ghost s: seq<Node<T>>)
    requires Ring([head] + s) && node !in [head] + s
    modifies node, head, s
    ensures Ring([head] + s + [node])
  {
    RingEnds([head] + s);
    AddBetween(node, head.prev, head, [head] + s);
  }

  // __list_del: the nodes before and after the last node of a ring are linked to each other.
  method DelBetween<T>(prev: Node<T>, next: Node<T>, ghost r: seq<Node<T>>, ghost node: Node<T>)
    requires r != [] && Ring(r + [node]) && prev == r[|r| - 1] && next == r[0]
    modifies prev`next, next`prev
    ensures Ring(r)
  {
    RingIsClosedChain(r + [node]);
    ChainConcat(r, [node]);
    DistinctConcat(r, [node]);
    next.prev := prev;
    prev.next := next;
    assert Chain(r);
    RingIsClosedChain(r);
  }

  // The entry leaves its ring; its own links are not changed.
  method Unlink<T>(entry: Node<T>, ghost head: Node<T>, ghost a: seq<Node<T>>, ghost b: seq<Node<T>>)
    requires Ring([head] + a + [entry] + b)
    modifies head, a, b
    ensures Ring([head] + a + b)
    ensures entry !in [head] + a + b
  {
    ghost var before := [head] + a;
    assert [head] + a + [entry] + b == (before + [entry]) + b;
    Rotate(before + [entry], b);
    assert b + (before + [entry]) == (b + before) + [entry];
    ghost var r := b + before;
    DistinctConcat(r, [entry]);
    RingIsClosedChain(r + [entry]);
    ChainConcat(r, [entry]);
    DelBetween(entry.prev, entry.next, r, entry);
    Rotate(b, before);
  }

  // list_del
  method Del<T>(entry: Node<T>, ghost head: Node<T>, ghost a: seq<Node<T>>, ghost b: seq<Node<T>>)
    requires Ring([head] + a + [entry] + b)
    modifies entry, head, a, b
    ensures Ring([head] + a + b) && entry.next == null && entry.prev == null
  {
    Unlink(entry, head, a, b);
    entry.next := null;
    entry.prev := null;
  }

  // list_del_init: the deleted entry becomes an empty list of its own.
  method DelInit<T>(entry: Node<T>, ghost head: Node<T>, ghost a: seq<Node<T>>, ghost b: seq<Node<T>>)
    requires Ring([head] + a + [entry] + b)
    modifies entry, head, a, b
    ensures Ring([head] + a + b) && Ring([entry])
  {
    hide Ring;
    Unlink(entry, head, a, b);
    ghost var rest := [head] + a + b;
    assert forall i :: 0 <= i < |rest| ==> rest[i] in rest && rest[i] != entry;
    Init(entry);
    assert Ring(rest);
  }

  // list_move within one list: the entry becomes the first.
  method Move<T>(entry: Node<T>, head: Node<T>, ghost a: seq<Node<T>>, ghost b: seq<Node<T>>)
    requires Ring([head] + a + [entry] + b)
    modifies entry, head, a, b
    ensures Ring([head] + [entry] + (a + b))
  {
    Unlink(entry, head, a, b);
    assert [head] + a + b == [head] + (a + b);
    Add(entry, head, a + b);
  }

  // list_move_tail within one list: the entry becomes the last.
  method MoveTail<T>(entry: Node<T>, head: Node<T>, ghost a: seq<Node<T>>, ghost b: seq<Node<T>>)
    requires Ring([head] + a + [entry] + b)
    modifies entry, head, a, b
    ensures Ring([head] + (a + b) + [entry])
  {
    Unlink(entry, head, a, b);
    assert [head] + a + b == [head] + (a + b);
    AddTail(entry, head, a + b);
  }

  // The entry leaves its list; another list is not touched and does not contain it.
  method UnlinkApart<T>(entry: Node<T>, ghost from: Node<T>, ghost a: seq<Node<T>>, ghost b: seq<Node<T>>,
                        ghost q: seq<Node<T>>)
    requires Ring([from] + a + [entry] + b) && Ring(q) && Disjoint([from] + a + [entry] + b, q)
    modifies from, a, b
    ensures Ring([from] + a + b) && Ring(q) && entry !in q
    ensures forall x :: x in [from] + a + b ==> x != entry && x !in q
  {
    hide Ring;
    hide Disjoint;
    ghost var all := [from] + a + [entry] + b;
    assert all[1 + |a|] == entry;
    Apart(all, q);
    assert forall x :: x in [from] + a + b ==> x in all;
    assert entry in all;
    forall i | 0 <= i < |q|
      ensures q[i] != from && q[i] !in a && q[i] !in b
    {
      assert q[i] in q && q[i] !in [from] + a + b;
      assert from in [from] + a + b;
    }
    Unlink(entry, from, a, b);
    assert Ring(q);
  }

  // list_move from one list to another.
  method MoveOver<T>(entry: Node<T>, head: Node<T>, ghost from: Node<T>, ghost a: seq<Node<T>>, ghost b: seq<Node<T>>,
                     ghost s: seq<Node<T>>)
    requires Ring([from] + a + [entry] + b) && Ring([head] + s)
    requires Disjoint([from] + a + [entry] + b, [head] + s)
    modifies entry, from, a, b, head, s
    ensures Ring([from] + a + b) && Ring([head] + [entry] + s)
  {
    hide Ring;
    hide Disjoint;
    UnlinkApart(entry, from, a, b, [head] + s);
    ghost var rest := [from] + a + b;
    forall i | 0 <= i < |rest|
      ensures rest[i] != entry && rest[i] != head && rest[i] !in s
    {
      assert rest[i] in rest && head in [head] + s;
    }
    Add(entry, head, s);
    assert Ring(rest);
  }

  // list_move_tail from one list to another.
  method MoveTailOver<T>(entry: Node<T>, head: Node<T>, ghost from: Node<T>, ghost a: seq<Node<T>>,
                         ghost b: seq<Node<T>>, ghost s: seq<Node<T>>)
    requires Ring([from] + a + [entry] + b) && Ring([head] + s)
    requires Disjoint([from] + a + [entry] + b, [head] + s)
    modifies entry, from, a, b, head, s
    ensures Ring([from] + a + b) && Ring([head] + s + [entry])
  {
    hide Ring;
    hide Disjoint;
    UnlinkApart(entry, from, a, b, [head] + s);
    ghost var rest := [from] + a + b;
    forall i | 0 <= i < |rest|
      ensures rest[i] != entry && rest[i] != head && rest[i] !in s
    {
      assert rest[i] in rest && head in [head] + s;
    }
    AddTail(entry, head, s);
    assert Ring(rest);
  }

  // list_empty
  method Empty<T>(head: Node<T>, ghost s: seq<Node<T>>) returns (empty: bool)
    requires Ring([head] + s)
    ensures empty <==> s == []
  {
    RingEnds([head] + s);
    empty := head.next == head;
  }

  // __list_splice: the entries of one list go before those of another.
  method SpliceBetween<T>(list: Node<T>, head: Node<T>, ghost a: seq<Node<T>>, ghost s: seq<Node<T>>)
    requires a != [] && Ring([list] + a) && Ring([head] + s) && Disjoint([list] + a, [head] + s)
    modifies a, head, s
    ensures Ring([head] + a + s)
    ensures list.next == a[0] && list.prev == a[|a| - 1]
  {
    BeforeSplice(list, head, a, s);
    assert forall i :: 0 <= i < |a| ==> a[i] in a && a[i] !in s && a[i] != head;
    assert forall i :: 0 <= i < |s| ==> s[i] in s && s[i] !in a && s[i] != head;
    assert s != [] ==> s[0] in s && s[|s| - 1] in s;
    hide Ring;
    hide Chain;
    hide Disjoint;
    var first := list.next;
    var last := list.prev;
    var at := head.next;
    first.prev := head;
    head.next := first;
    last.next := at;
    at.prev := last;
    ChainKept(a);
    ChainKept(s);
    AfterSplice(head, a, s);
  }

  lemma BeforeSplice<T>(list: Node<T>, head: Node<T>, a: seq<Node<T>>, s: seq<Node<T>>)
    requires a != [] && Ring([list] + a) && Ring([head] + s) && Disjoint([list] + a, [head] + s)
    ensures list.next == a[0] && list.prev == a[|a| - 1]
    ensures head.next == (if s == [] then head else s[0])
    ensures head.prev == (if s == [] then head else s[|s| - 1])
    ensures s != [] ==> s[|s| - 1].next == head
    ensures Chain(a) && Chain(s) && Distinct(a) && Distinct(s)
    ensures head !in a && head !in s && list !in a && (forall x :: x in a ==> x !in s)
  {
    RingHead(list, a);
    RingEnds([list] + a);
    RingEnds([head] + s);
    RingIsClosedChain([list] + a);
    RingIsClosedChain([head] + s);
    hide Ring;
    ChainConcat([list], a);
    ChainConcat([head], s);
    DistinctConcat([list], a);
    DistinctConcat([head], s);
    Apart([list] + a, [head] + s);
    assert list in [list] + a;
    assert forall x :: x in a ==> x in [list] + a;
    assert forall x :: x in s ==> x in [head] + s;
    assert head in [head] + s;
  }

  lemma Distincts<T>(head: Node<T>, a: seq<Node<T>>, s: seq<Node<T>>)
    requires Distinct(a) && Distinct(s) && head !in a && head !in s && (forall x :: x in a ==> x !in s)
    ensures Distinct([head] + a + s)
  {
    hide Distinct;
    assert Distinct([head]) by { SingleDistinct(head); }
    assert Disjoint([head], a);
    DistinctConcat([head], a);
    assert forall i :: 0 <= i < |[head] + a| ==> ([head] + a)[i] in [head] + a;
    assert Disjoint([head] + a, s);
    DistinctConcat([head] + a, s);
  }

  lemma SingleDistinct<T>(head: Node<T>)
    ensures Distinct([head])
  {
  }

  lemma AfterSplice<T>(head: Node<T>, a: seq<Node<T>>, s: seq<Node<T>>)
    requires a != [] && Chain(a) && Chain(s) && Distinct(a) && Distinct(s)
    requires head !in a && head !in s && (forall x :: x in a ==> x !in s)
    requires Linked(head, a[0]) && Linked(a[|a| - 1], if s == [] then head else s[0])
    requires s != [] ==> Linked(s[|s| - 1], head)
    ensures Ring([head] + a + s)
  {
    assert Chain([head]);
    assert forall x :: x in [head] + a ==> x !in s;
    Distincts(head, a, s);
    ChainConcat([head], a);
    ChainConcat([head] + a, s);
    RingIsClosedChain([head] + a + s);
  }

  // list_splice
  method Splice<T>(list: Node<T>, head: Node<T>, ghost a: seq<Node<T>>, ghost s: seq<Node<T>>)
    requires Ring([list] + a) && Ring([head] + s) && Disjoint([list] + a, [head] + s)
    modifies a, head, s
    ensures Ring([head] + a + s)
  {
    var empty := Empty(list, a);
    if !empty {
      SpliceBetween(list, head, a, s);
    } else {
      assert [head] + a + s == [head] + s;
    }
  }

  // list_splice_init: the list that was spliced is empty afterwards.
  method SpliceInit<T>(list: Node<T>, head: Node<T>, ghost a: seq<Node<T>>, ghost s: seq<Node<T>>)
    requires Ring([list] + a) && Ring([head] + s) && Disjoint([list] + a, [head] + s)
    modifies list, a, head, s
    ensures Ring([head] + a + s) && Ring([list])
  {
    hide Ring;
    RingHead(list, a);
    Apart([list] + a, [head] + s);
    hide Disjoint;
    assert forall x :: x in a || x == list ==> x in [list] + a;
    var empty := Empty(list, a);
    if !empty {
      SpliceBetween(list, head, a, s);
      Init(list);
    } else {
      assert [head] + a + s == [head] + s;
      assert [list] + a == [list];
    }
  }

  // list_for_each visits the entries in order, each once.
  method ForEach<T>(head: Node<T>, ghost s: seq<Node<T>>) returns (visited: seq<Node<T>>)
    requires Ring([head] + s)
    ensures visited == s
  {
    ghost var r := [head] + s;
    RingEnds(r);
    visited := [];
    var pos := head.next;
    while pos != head
      invariant |visited| <= |s| && visited == s[..|visited|]
      invariant pos == After(r, |visited|)
      decreases |s| - |visited|
    {
      assert Linked(r[|visited| + 1], After(r, |visited| + 1));
      visited := visited + [pos];
      pos := pos.next;
    }
  }
}
