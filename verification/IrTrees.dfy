/** Schema nodes with their three views, and the nested projection that copies every view in full. */
module IrTrees {
  import opened Common

  type NodeId = nat

  datatype Kind = Choice | Case | Rpc | Action | Notification | OperationIo | DataNode

  /** A schema node.  keys are the positions of the list keys among the children. */
  datatype Node = Node(id: NodeId, kind: Kind, children: seq<Node>, keys: seq<nat>)

  /** The nodes of ns and below in pre-order. */
  function PreorderAll(ns: seq<Node>): seq<Node> {
    if ns == [] then [] else Preorder(ns[0]) + PreorderAll(ns[1..])
  }

  function Preorder(n: Node): (r: seq<Node>)
    ensures |r| > 0 && r[0] == n
  {
    [n] + PreorderAll(n.children)
  }

  function Size(n: Node): nat { |Preorder(n)| }

  /** The data nodes among ns, those below choices and cases taking their place. */
  function Flattened(ns: seq<Node>): seq<Node> {
    if ns == [] then [] else FlattenedOne(ns[0]) + Flattened(ns[1..])
  }

  function FlattenedOne(c: Node): seq<Node> {
    match c.kind
    case Action | Rpc | Notification => []
    case Choice | Case => Flattened(c.children)
    case DataNode | OperationIo => [c]
  }

  function DataChildren(n: Node): seq<Node> { Flattened(n.children) }

  predicate KeysAreChildren(n: Node) { forall i :: 0 <= i < |n.keys| ==> n.keys[i] < |n.children| }

  function ListKeys(n: Node): (r: seq<Node>)
    requires KeysAreChildren(n)
    ensures |r| == |n.keys| && forall i :: 0 <= i < |r| ==> r[i] == n.children[n.keys[i]]
  {
    seq(|n.keys|, i requires 0 <= i < |n.keys| => n.children[n.keys[i]])
  }

  /** Every list key below is a child of its list. */
  ghost predicate Sound(n: Node) { forall m :: m in Preorder(n) ==> KeysAreChildren(m) }

  // ---- The views stay below the node

  lemma {:induction false} InPreorderAll(ns: seq<Node>, k: nat, m: Node)
    requires k < |ns| && m in Preorder(ns[k])
    ensures m in PreorderAll(ns)
    ensures Size(ns[k]) <= |PreorderAll(ns)|
  {
    hide Preorder;
    if k > 0 {
      InPreorderAll(ns[1..], k - 1, m);
    }
  }

  lemma {:induction false} FromPreorderAll(ns: seq<Node>, m: Node) returns (k: nat)
    requires m in PreorderAll(ns)
    ensures k < |ns| && m in Preorder(ns[k])
  {
    hide Preorder;
    if m in Preorder(ns[0]) {
      k := 0;
    } else {
      k := FromPreorderAll(ns[1..], m);
      k := k + 1;
    }
  }

  lemma ChildBelow(n: Node, k: nat)
    requires k < |n.children|
    ensures n.children[k] in PreorderAll(n.children) && Size(n.children[k]) < Size(n)
  {
    hide PreorderAll;
    InPreorderAll(n.children, k, n.children[k]);
  }

  lemma {:induction false} FlattenedBelow(ns: seq<Node>, d: Node)
    requires d in Flattened(ns)
    ensures d in PreorderAll(ns) && Size(d) <= |PreorderAll(ns)|
  {
    if d in FlattenedOne(ns[0]) {
      if ns[0].kind.Choice? || ns[0].kind.Case? {
        FlattenedBelow(ns[0].children, d);
      }
    } else {
      FlattenedBelow(ns[1..], d);
    }
  }

  lemma DataBelow(n: Node, d: Node)
    requires d in DataChildren(n)
    ensures d in PreorderAll(n.children) && Size(d) < Size(n)
  {
    hide PreorderAll, Flattened;
    FlattenedBelow(n.children, d);
  }

  /** Whatever lies below a node of a pre-order listing is listed too. */
  lemma {:induction false} PreorderTransitive(ns: seq<Node>, m: Node, below: Node)
    requires m in PreorderAll(ns) && below in Preorder(m)
    ensures below in PreorderAll(ns)
  {
    var k := FromPreorderAll(ns, m);
    if m != ns[k] {
      PreorderTransitive(ns[k].children, m, below);
    }
    InPreorderAll(ns, k, below);
  }

  lemma SoundBelow(n: Node, m: Node)
    requires Sound(n) && m in PreorderAll(n.children)
    ensures Sound(m)
  {
    hide KeysAreChildren;
    forall b | b in Preorder(m)
      ensures KeysAreChildren(b)
    {
      PreorderTransitive(n.children, m, b);
    }
  }

  lemma {:induction false} PreorderAllAppend(a: seq<Node>, b: seq<Node>)
    ensures PreorderAll(a + b) == PreorderAll(a) + PreorderAll(b)
  {
    hide Preorder;
    if a == [] {
      assert a + b == b;
    } else {
      assert (a + b)[1..] == a[1..] + b;
      PreorderAllAppend(a[1..], b);
    }
  }

  lemma PreorderAllNext(ns: seq<Node>, i: nat)
    requires i < |ns|
    ensures PreorderAll(ns[..i + 1]) == PreorderAll(ns[..i]) + Preorder(ns[i])
  {
    hide Preorder;
    assert ns[..i + 1] == ns[..i] + [ns[i]];
    PreorderAllAppend(ns[..i], [ns[i]]);
    assert PreorderAll([ns[i]]) == Preorder(ns[i]) + PreorderAll([]);
  }

  /** In a pre-order listing each node is followed by exactly what lies below it. */
  lemma {:induction false} PreorderBlock(ns: seq<Node>, i: nat)
    requires i < |PreorderAll(ns)|
    ensures var x := PreorderAll(ns)[i];
            i + Size(x) <= |PreorderAll(ns)| && PreorderAll(ns)[i..i + Size(x)] == Preorder(x)
  {
    var first := Preorder(ns[0]);
    var x := PreorderAll(ns)[i];
    if i == 0 {
      assert PreorderAll(ns)[..|first|] == first;
    } else if i < |first| {
      PreorderBlock(ns[0].children, i - 1);
      assert PreorderAll(ns)[i..i + Size(x)] == PreorderAll(ns[0].children)[i - 1..i - 1 + Size(x)];
    } else {
      PreorderBlock(ns[1..], i - |first|);
      assert PreorderAll(ns)[i..i + Size(x)] == PreorderAll(ns[1..])[i - |first|..i - |first| + Size(x)];
    }
  }

  // ---- The nested projection

  /** A node with full copies of the subtrees of its three views. */
  datatype Nested = Nested(id: NodeId, kind: Kind, children: seq<Nested>, dataChildren: seq<Nested>,
                           listKeys: seq<Nested>)

  function NestedOf(n: Node): Nested
    requires Sound(n)
    decreases Size(n)
  {
    assert n in Preorder(n);
    var data, keys := DataChildren(n), ListKeys(n);
    Nested(n.id, n.kind,
           seq(|n.children|, i requires 0 <= i < |n.children| =>
               ChildBelow(n, i); SoundBelow(n, n.children[i]); NestedOf(n.children[i])),
           seq(|data|, i requires 0 <= i < |data| => DataBelow(n, data[i]); SoundBelow(n, data[i]); NestedOf(data[i])),
           seq(|keys|, i requires 0 <= i < |keys| =>
               ChildBelow(n, n.keys[i]); SoundBelow(n, keys[i]); NestedOf(keys[i])))
  }

  /** The records of a nested projection. */
  function Count(n: Nested): nat { 1 + CountAll(n.children) + CountAll(n.dataChildren) + CountAll(n.listKeys) }

  function CountAll(ns: seq<Nested>): nat { if ns == [] then 0 else Count(ns[0]) + CountAll(ns[1..]) }

  lemma {:induction false} CountAllNext(ns: seq<Nested>, i: nat)
    requires i < |ns|
    ensures CountAll(ns[..i + 1]) == CountAll(ns[..i]) + Count(ns[i])
  {
    hide Count;
    if i == 0 {
      assert ns[..1] == [ns[0]];
      assert ns[..1][1..] == [];
    } else {
      assert ns[..i + 1][1..] == ns[1..][..i] && ns[..i][1..] == ns[1..][..i - 1];
      CountAllNext(ns[1..], i - 1);
    }
  }
}
