// The reply fields of the API (api.c): a circular list that is built by appending and consumed while
// it is printed.
module ApiData {
  import opened Wrappers
  import opened Lists
  import opened Sequences
  import E = Escape

  datatype Kind = Text | Escaped | Constant | Other

  // A field. Its data may be a copy that the list has to free.
  datatype Field = Field(name: string, kind: Kind, data: string, owned: bool)

  type FieldNode = Node<Field>

  const NULLSTR := "(null)"

  // An empty list has no nodes and no root.
  ghost predicate IsList(root: Node?<Field>, r: seq<FieldNode>)
    reads r
  {
    if r == [] then root == null else root == r[0] && Ring(r)
  }

  ghost function Fields(r: seq<FieldNode>): seq<Field> {
    seq(|r|, i requires 0 <= i < |r| => r[i].item)
  }

  lemma BeforeJoin(r: seq<FieldNode>, x: seq<FieldNode>)
    requires Ring(r) && Ring(x) && Disjoint(r, x)
    ensures r[0].prev == r[|r| - 1] && x[0].prev == x[|x| - 1]
    ensures Chain(r) && Chain(x) && Distinct(r) && Distinct(x)
  {
    RingEnds(r);
    RingEnds(x);
    RingIsClosedChain(r);
    RingIsClosedChain(x);
  }

  lemma AfterJoin(r: seq<FieldNode>, x: seq<FieldNode>)
    requires r != [] && x != [] && Distinct(r) && Distinct(x) && Disjoint(r, x)
    requires Chain(r) && Chain(x) && Linked(r[|r| - 1], x[0]) && Linked(x[|x| - 1], r[0])
    ensures Ring(r + x)
  {
    hide Chain;
    ChainConcat(r, x);
    DistinctConcat(r, x);
    RingIsClosedChain(r + x);
  }

  lemma Alone(node: FieldNode)
    ensures Chain([node]) && Distinct([node])
  {
  }

  // api_add_data_full
  method AddDataFull(root: Node?<Field>, name: string, kind: Kind, data: Option<string>, copy: bool,
                     ghost r: seq<FieldNode>)
    returns (newRoot: FieldNode, node: FieldNode)
    requires IsList(root, r)
    modifies r
    ensures fresh(node) && IsList(newRoot, r + [node]) && Fields(r + [node]) == Fields(r) + [node.item]
    ensures data.Some? ==> node.item == Field(name, kind, data.value, copy)
    ensures data.None? ==> node.item == Field(name, Constant, "(null)", false)
  {
    node := new Node(if data.Some? then Field(name, kind, data.value, copy) else Field(name, Constant, NULLSTR, false));
    if root == null {
      newRoot := node;
      newRoot.prev := newRoot;
      newRoot.next := newRoot;
      assert r + [node] == [node];
    } else {
      newRoot := root;
      Append(newRoot, node, r);
    }
  }

  // The node goes between the last and the first one.
  method Append(root: FieldNode, node: FieldNode, ghost r: seq<FieldNode>)
    requires r != [] && IsList(root, r) && node !in r
    modifies r, node
    ensures Ring(r + [node])
  {
    RingEnds(r);
    RingIsClosedChain(r);
    NotIn(node, r);
    hide Ring;
    hide Chain;
    node.prev := root.prev;
    root.prev := node;
    node.next := root;
    node.prev.next := node;
    ChainKept(r);
    Alone(node);
    AfterJoin(r, [node]);
  }

  lemma NotIn(node: FieldNode, r: seq<FieldNode>)
    requires node !in r
    ensures Disjoint(r, [node]) && forall i :: 0 <= i < |r| ==> r[i] != node
  {
  }

  lemma FieldsConcat(r: seq<FieldNode>, x: seq<FieldNode>)
    ensures Fields(r + x) == Fields(r) + Fields(x)
  {
  }

  // api_add_extra: the second list is appended as a whole.
  method AddExtra(root: Node?<Field>, extra: Node?<Field>, ghost r: seq<FieldNode>, ghost x: seq<FieldNode>)
    returns (newRoot: Node?<Field>)
    requires IsList(root, r) && IsList(extra, x) && Disjoint(r, x)
    modifies r, x
    ensures IsList(newRoot, r + x)
    ensures Fields(r + x) == Fields(r) + Fields(x)
  {
    FieldsConcat(r, x);
    hide Fields;
    newRoot := root;
    if root != null {
      if extra != null {
        BeforeJoin(r, x);
        hide Ring;
        hide Chain;
        var tail := extra.prev;
        extra.prev := root.prev;
        root.prev.next := extra;
        tail.next := root;
        root.prev := tail;
        ChainKept(r);
        ChainKept(x);
        AfterJoin(r, x);
      } else {
        assert r + x == r;
      }
    } else {
      newRoot := extra;
      assert r + x == x;
    }
  }

  // What malloc and free keep track of: the nodes that may still be used.
  class Memory {
    ghost var live: set<FieldNode>

    constructor ()
      ensures live == {}
    {
      live := {};
    }

    method Free(node: FieldNode)
      requires node in live
      modifies this
      ensures live == old(live) - {node}
    {
      live := live - {node};
    }
  }

  // The text of one field, as in name=value. The values that are no strings are shown by a function of the type.
  function Shown(f: Field, show: Field -> string, json: bool): string {
    Quoted(f.name, json) + (if json then ":" else "=") + Value(f, show, json)
  }

  function Quoted(s: string, json: bool): string {
    if json then "\"" + s + "\"" else s
  }

  function Value(f: Field, show: Field -> string, json: bool): string {
    match f.kind
    case Text | Constant => Quoted(f.data, json)
    case Escaped => Quoted(E.Escaped(f.data, json), json)
    case Other => show(f)
  }

  // The texts of some fields, with commas between them.
  function Commas(fs: seq<Field>, show: Field -> string, json: bool): string {
    if fs == [] then ""
    else if |fs| == 1 then Shown(fs[0], show, json)
    else Commas(fs[..|fs| - 1], show, json) + "," + Shown(fs[|fs| - 1], show, json)
  }

  ghost function Nodes(r: seq<FieldNode>): set<FieldNode> {
    set x | x in r
  }

  // The first node is unlinked and freed; a node that is its own successor is the last one. Every node
  // that is touched is live, and those that are left stay so.
  method FreeFirst(root: FieldNode, memory: Memory, ghost r: seq<FieldNode>) returns (next: Node?<Field>)
    requires r != [] && IsList(root, r) && Nodes(r) <= memory.live
    modifies memory, r
    ensures IsList(next, r[1..]) && memory.live == old(memory.live) - {root} && Nodes(r[1..]) <= memory.live
  {
    RingEnds(r);
    RingIsClosedChain(r);
    ghost var rest := r[1..];
    assert r == [root] + rest;
    ChainConcat([root], rest);
    DistinctConcat([root], rest);
    NodesLeft(root, rest);
    hide Chain;
    hide Ring;
    hide Distinct;
    assert root in Nodes(r);
    if root.next == root {
      memory.Free(root);
      next := null;
    } else {
      var tmp := root;
      next := tmp.next;
      next.prev := tmp.prev;
      next.prev.next := next;
      memory.Free(tmp);
      RestKept(rest);
    }
  }

  lemma NodesLeft(root: FieldNode, rest: seq<FieldNode>)
    requires Disjoint([root], rest)
    ensures Nodes(rest) == Nodes([root] + rest) - {root}
  {
    assert forall x :: x in [root] + rest <==> x == root || x in rest;
    assert [root][0] == root;
  }

  twostate lemma RestKept(rest: seq<FieldNode>)
    requires rest != [] && old(Chain(rest)) && Distinct(rest) && Linked(rest[|rest| - 1], rest[0])
    requires forall i :: 0 <= i < |rest| - 1 ==> rest[i].next == old(rest[i].next)
    requires forall i :: 0 < i < |rest| ==> rest[i].prev == old(rest[i].prev)
    ensures Ring(rest)
  {
    ChainKept(rest);
    RingIsClosedChain(rest);
  }

  // print_data: every node is printed and freed once, in order, and nothing freed is used again.
  method PrintData(root: Node?<Field>, memory: Memory, show: Field -> string, json: bool, precom: bool,
                   ghost r: seq<FieldNode>)
    returns (last: Node?<Field>, buf: string, ghost freed: seq<FieldNode>)
    requires IsList(root, r) && Nodes(r) <= memory.live
    modifies memory, r
    ensures last == null && freed == r && memory.live == old(memory.live) - Nodes(r)
    ensures buf == (if precom then "," else "") + (if json then "{" else "")
                   + Commas(Fields(r), show, json) + (if json then "}" else "|")
  {
    hide IsList;
    hide Commas;
    hide Shown;
    hide Fields;
    hide Nodes;
    hide Printed;
    buf := (if precom then "," else "") + (if json then "{" else "");
    ghost var start := buf;
    last := root;
    freed := [];
    var first := true;
    PrintStarts(root, r, memory.live, start, show, json);
    while last != null
      invariant |freed| <= |r| && IsList(last, r[|freed|..]) && first == (|freed| == 0)
      invariant Printed(r, old(memory.live), start, show, json, freed, memory.live, buf)
      invariant last == null <==> |freed| == |r|
      decreases |r| - |freed|
    {
      last, buf, freed := PrintNext(last, memory, show, json, first, buf, r, freed, old(memory.live), start);
      first := false;
    }
    PrintEnds(r, old(memory.live), start, show, json, freed, memory.live, buf);
    buf := buf + (if json then "}" else "|");
  }

  // Print the field of a node and free the node.
  method PrintNext(node: FieldNode, memory: Memory, show: Field -> string, json: bool, first: bool, before: string,
                   ghost r: seq<FieldNode>, ghost done: seq<FieldNode>, ghost live: set<FieldNode>,
                   ghost start: string)
    returns (next: Node?<Field>, buf: string, ghost freed: seq<FieldNode>)
    requires |done| <= |r| && IsList(node, r[|done|..]) && first == (|done| == 0)
    requires Printed(r, live, start, show, json, done, memory.live, before)
    modifies memory, r
    ensures |freed| == |done| + 1 <= |r| && IsList(next, r[|freed|..]) && (next == null <==> |freed| == |r|)
    ensures Printed(r, live, start, show, json, freed, memory.live, buf)
  {
    hide IsList;
    hide Commas;
    hide Shown;
    hide Fields;
    hide Nodes;
    hide Printed;
    PrintTurn(node, r, live, start, show, json, done, memory.live, before);
    buf := PrintField(node.item, first, before, show, json);
    freed := done + [node];
    next := FreeFirst(node, memory, r[|done|..]);
    ListEnds(next, r[|freed|..]);
  }

  method PrintField(f: Field, first: bool, before: string, show: Field -> string, json: bool) returns (buf: string)
    ensures buf == before + (if first then "" else ",") + Shown(f, show, json)
  {
    hide Shown;
    buf := before;
    assert before + "" == before;
    if !first {
      buf := buf + ",";
    }
    buf := buf + Shown(f, show, json);
  }

  // The state of the printing loop: the nodes printed are a prefix and they are no longer live, the others
  // are live, and the text is that of the prefix.
  ghost predicate Printed(r: seq<FieldNode>, live: set<FieldNode>, start: string, show: Field -> string, json: bool,
                          freed: seq<FieldNode>, now: set<FieldNode>, buf: string)
  {
    && freed <= r
    && now == live - Nodes(freed) && Nodes(r[|freed|..]) <= now
    && buf == start + Commas(Fields(freed), show, json)
  }

  lemma PrintStarts(root: Node?<Field>, r: seq<FieldNode>, live: set<FieldNode>, start: string, show: Field -> string,
                    json: bool)
    requires IsList(root, r) && Nodes(r) <= live
    ensures Printed(r, live, start, show, json, [], live, start)
    ensures r[0..] == r && IsList(root, r[0..]) && (root == null <==> |r| == 0)
  {
    assert r[0..] == r && Fields([]) == [];
  }

  lemma ListEnds(root: Node?<Field>, r: seq<FieldNode>)
    requires IsList(root, r)
    ensures root == null <==> r == []
  {
  }

  // One turn: the first node that is left is live, and what the next state is once it is printed and freed.
  lemma PrintTurn(root: Node?<Field>, r: seq<FieldNode>, live: set<FieldNode>, start: string, show: Field -> string,
                  json: bool, freed: seq<FieldNode>, now: set<FieldNode>, buf: string)
    requires Printed(r, live, start, show, json, freed, now, buf) && IsList(root, r[|freed|..]) && root != null
    ensures |freed| < |r| && root == r[|freed|] && r[|freed|..] != [] && r[|freed|..][1..] == r[|freed| + 1..]
    ensures Nodes(r[|freed|..]) <= now
    ensures Nodes(r[|freed| + 1..]) <= now - {root} ==>
              Printed(r, live, start, show, json, freed + [root], now - {root},
                      buf + (if freed == [] then "" else ",") + Shown(root.item, show, json))
  {
    hide Fields;
    hide Nodes;
    hide Commas;
    hide Shown;
    var k := |freed|;
    FirstNode(root, r[k..]);
    PrefixStep(r, freed, root);
    NodesExtend(freed, root);
    CommasStep(r, k, show, json);
    TextStep(start, Commas(Fields(freed), show, json), if k > 0 then "," else "", Shown(root.item, show, json));
  }

  lemma FirstNode(root: Node?<Field>, r: seq<FieldNode>)
    requires IsList(root, r) && root != null
    ensures r != [] && root == r[0]
  {
  }

  lemma PrefixStep(r: seq<FieldNode>, freed: seq<FieldNode>, root: FieldNode)
    requires freed <= r && |freed| < |r| && root == r[|freed|]
    ensures freed == r[..|freed|] && freed + [root] == r[..|freed| + 1]
    ensures r[|freed|..][1..] == r[|freed| + 1..]
  {
  }

  lemma NodesExtend(s: seq<FieldNode>, x: FieldNode)
    ensures Nodes(s + [x]) == Nodes(s) + {x}
  {
  }

  lemma TextStep(start: string, text: string, comma: string, field: string)
    ensures start + text + comma + field == start + (text + comma + field)
  {
  }

  lemma PrintEnds(r: seq<FieldNode>, live: set<FieldNode>, start: string, show: Field -> string, json: bool,
                  freed: seq<FieldNode>, now: set<FieldNode>, buf: string)
    requires Printed(r, live, start, show, json, freed, now, buf) && |freed| == |r|
    ensures freed == r && now == live - Nodes(r) && buf == start + Commas(Fields(r), show, json)
  {
  }

  lemma CommasStep(r: seq<FieldNode>, k: nat, show: Field -> string, json: bool)
    requires k < |r|
    ensures Commas(Fields(r[..k + 1]), show, json)
         == Commas(Fields(r[..k]), show, json) + (if k > 0 then "," else "") + Shown(r[k].item, show, json)
  {
    assert Fields(r[..k + 1])[..k] == Fields(r[..k]);
  }
}
