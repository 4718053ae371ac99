/** Which nodes the data view of a schema node shows, and in which order. */
module IrViews {
  import opened Common
  import opened IrTrees
  import opened Projections
  import opened ProjectionOrder

  /** Nodes that only structure the schema: nothing in the data stands for them. */
  ghost predicate Structural(n: Node) { n.kind.Choice? || n.kind.Case? }

  ghost predicate Operation(n: Node) { n.kind.Rpc? || n.kind.Action? || n.kind.Notification? }

  /** Each node of the path is a child of the one before, the first one of ns. */
  ghost predicate PathFrom(ns: seq<Node>, path: seq<Node>)
    decreases |path|
  {
    path != [] && path[0] in ns && (|path| > 1 ==> PathFrom(path[0].children, path[1..]))
  }

  /** d is no operation or choice or case, and stands below ns with only choices and cases in between. */
  ghost predicate ShownBelow(ns: seq<Node>, d: Node) { exists path :: ShownAlong(ns, d, path) }

  ghost predicate ShownAlong(ns: seq<Node>, d: Node, path: seq<Node>) {
    && PathFrom(ns, path) && path[|path| - 1] == d && !Operation(d) && !Structural(d)
    && forall i :: 0 <= i < |path| - 1 ==> Structural(path[i])
  }

  /** The flattened view shows exactly those nodes. */
  lemma {:induction false} FlattenedExactly(ns: seq<Node>, d: Node)
    ensures d in Flattened(ns) <==> ShownBelow(ns, d)
    decreases |PreorderAll(ns)|, |ns|
  {
    hide FlattenedOne, PreorderAll, Preorder, ShownAlong;
    if ns == [] {
      NothingBelow(d);
    } else {
      var c := ns[0];
      FirstSmaller(ns);
      FlattenedExactly(ns[1..], d);
      if Structural(c) {
        ChildrenSmaller(ns);
        FlattenedExactly(c.children, d);
      }
      OneExactly(c, d);
      SplitShown(ns, d);
    }
  }

  lemma NothingBelow(d: Node)
    ensures d !in Flattened([]) && !ShownBelow([], d)
  {
  }

  lemma FirstSmaller(ns: seq<Node>)
    requires ns != []
    ensures |PreorderAll(ns[1..])| < |PreorderAll(ns)|
  {
  }

  lemma ChildrenSmaller(ns: seq<Node>)
    requires ns != []
    ensures |PreorderAll(ns[0].children)| < |PreorderAll(ns)|
  {
    assert Preorder(ns[0]) == [ns[0]] + PreorderAll(ns[0].children);
  }

  /** What the first node gives: itself, nothing, or what is shown below it. */
  lemma OneExactly(c: Node, d: Node)
    requires Structural(c) ==> (d in Flattened(c.children) <==> ShownBelow(c.children, d))
    ensures d in FlattenedOne(c) <==> if Structural(c) then ShownBelow(c.children, d) else d == c && !Operation(c)
  {
    hide Flattened, ShownBelow;
  }

  lemma SplitShown(ns: seq<Node>, d: Node)
    requires ns != []
    ensures var c := ns[0];
            ShownBelow(ns, d) <==>
            || ShownBelow(ns[1..], d)
            || if Structural(c) then ShownBelow(c.children, d) else d == c && !Operation(c)
  {
    var c := ns[0];
    if path :| ShownAlong(ns, d, path) {
      if path[0] == c {
        if |path| > 1 {
          assert ShownAlong(c.children, d, path[1..]);
        }
      } else {
        assert ShownAlong(ns[1..], d, path);
      }
    }
    if path :| ShownAlong(ns[1..], d, path) {
      assert ShownAlong(ns, d, path);
    }
    if Structural(c) {
      if path :| ShownAlong(c.children, d, path) {
        assert ([c] + path)[1..] == path;
        assert ShownAlong(ns, d, [c] + path);
      }
    } else if d == c && !Operation(c) {
      assert ShownAlong(ns, d, [c]);
    }
  }

  /** The positions increase and pick s out of whole. */
  ghost predicate Picks<T>(at: seq<nat>, s: seq<T>, whole: seq<T>) {
    && |at| == |s| && (forall i :: 0 <= i < |at| ==> at[i] < |whole| && whole[at[i]] == s[i])
    && forall i, j :: 0 <= i < j < |at| ==> at[i] < at[j]
  }

  function Moved(at: seq<nat>, offset: nat): seq<nat> { seq(|at|, i requires 0 <= i < |at| => at[i] + offset) }

  lemma PicksJoin<T>(a: seq<nat>, s: seq<T>, x: seq<T>, b: seq<nat>, t: seq<T>, y: seq<T>)
    requires Picks(a, s, x) && Picks(b, t, y)
    ensures Picks(a + Moved(b, |x|), s + t, x + y)
  {
  }

  lemma PicksAfter<T>(first: T, b: seq<nat>, t: seq<T>, y: seq<T>)
    requires Picks(b, t, y)
    ensures Picks(Moved(b, 1), t, [first] + y)
  {
  }

  /** The flattened view lists its nodes as pre-order does, none of them twice. */
  lemma {:induction false} FlattenedInOrder(ns: seq<Node>) returns (at: seq<nat>)
    ensures Picks(at, Flattened(ns), PreorderAll(ns))
    decreases |PreorderAll(ns)|, |ns|
  {
    hide Picks, PreorderAll, Preorder, FlattenedOne;
    if ns == [] {
      at := [];
      NothingPicked();
    } else {
      var c := ns[0];
      FirstSmaller(ns);
      var rest := FlattenedInOrder(ns[1..]);
      var first: seq<nat> := [];
      if Structural(c) {
        ChildrenSmaller(ns);
        var below := FlattenedInOrder(c.children);
        PicksAfter(c, below, Flattened(c.children), PreorderAll(c.children));
        first := Moved(below, 1);
      } else if !Operation(c) {
        first := [0];
      }
      FirstPicked(c, first);
      PicksJoin(first, FlattenedOne(c), Preorder(c), rest, Flattened(ns[1..]), PreorderAll(ns[1..]));
      at := first + Moved(rest, |Preorder(c)|);
      FirstThenRest(ns);
    }
  }

  lemma NothingPicked()
    ensures Picks([], Flattened([]), PreorderAll([]))
  {
  }

  lemma FirstThenRest(ns: seq<Node>)
    requires ns != []
    ensures Flattened(ns) == FlattenedOne(ns[0]) + Flattened(ns[1..])
    ensures PreorderAll(ns) == Preorder(ns[0]) + PreorderAll(ns[1..])
  {
  }

  lemma FirstPicked(c: Node, first: seq<nat>)
    requires Structural(c) ==> Picks(first, Flattened(c.children), [c] + PreorderAll(c.children))
    requires !Structural(c) ==> first == if Operation(c) then [] else [0]
    ensures Picks(first, FlattenedOne(c), Preorder(c))
  {
    hide Flattened;
    assert Preorder(c) == [c] + PreorderAll(c.children);
  }

  /** Without flattening: the children that are no operations, in order. */
  lemma {:induction false} PlainViewExactly(ns: seq<Node>) returns (at: seq<nat>)
    ensures Picks(at, WithoutOperations(ns), ns)
    ensures forall c :: c in WithoutOperations(ns) <==> c in ns && !Operation(c)
  {
    if ns == [] {
      at := [];
    } else {
      var rest := PlainViewExactly(ns[1..]);
      assert ns == [ns[0]] + ns[1..];
      PicksAfter(ns[0], rest, WithoutOperations(ns[1..]), ns[1..]);
      if Operation(ns[0]) {
        at := Moved(rest, 1);
      } else {
        PicksJoin([0], [ns[0]], [ns[0]], rest, WithoutOperations(ns[1..]), ns[1..]);
        at := [0] + Moved(rest, 1);
      }
    }
  }

  // ---- Projected nodes keep the order of the view

  /** The top-level nodes of a projection are picked from the module's, in order. */
  lemma {:induction false} TopInOrder(top: seq<Node>, present: set<Path>) returns (at: seq<nat>)
    ensures Picks(at, PresentTop(top, present), top)
  {
    if top == [] {
      at := [];
    } else {
      var rest := TopInOrder(top[1..], present);
      assert top == [top[0]] + top[1..];
      PicksAfter(top[0], rest, PresentTop(top[1..], present), top[1..]);
      if [top[0]] in present {
        PicksJoin([0], [top[0]], [top[0]], rest, PresentTop(top[1..], present), top[1..]);
        at := [0] + Moved(rest, 1);
      } else {
        at := Moved(rest, 1);
      }
    }
  }

  /** So are the children listed below a node, from its keys and from its view. */
  lemma {:induction false} FreshInOrder(present: set<Path>, p: Path, out: seq<Node>, cs: seq<Node>)
    returns (at: seq<nat>)
    ensures Picks(at, FreshPresent(present, p, out, cs), cs)
    ensures forall c :: c in FreshPresent(present, p, out, cs) <==> c in cs && c !in out && p + [c] in present
  {
    if cs == [] {
      at := [];
    } else {
      var rest := FreshInOrder(present, p, out, cs[1..]);
      var more := FreshPresent(present, p, out, cs[1..]);
      assert cs == [cs[0]] + cs[1..];
      PicksAfter(cs[0], rest, more, cs[1..]);
      if cs[0] !in out && p + [cs[0]] in present {
        PicksJoin([0], [cs[0]], [cs[0]], rest, more, cs[1..]);
        at := [0] + Moved(rest, 1);
      } else {
        assert [] + more == more;
        at := Moved(rest, 1);
      }
    }
  }

  // ---- Records

  /** The records of a nested projection, one by one: the node, then those of its three views. */
  function Records(n: Nested): seq<Nested> {
    [n] + RecordsOfAll(n.children) + RecordsOfAll(n.dataChildren) + RecordsOfAll(n.listKeys)
  }

  function RecordsOfAll(ns: seq<Nested>): seq<Nested> {
    if ns == [] then [] else Records(ns[0]) + RecordsOfAll(ns[1..])
  }

  /** The count is the number of records written out. */
  lemma {:induction false} CountIsRecords(n: Nested)
    ensures Count(n) == |Records(n)|
    decreases n, 1
  {
    CountOfAll(n, n.children);
    CountOfAll(n, n.dataChildren);
    CountOfAll(n, n.listKeys);
  }

  lemma {:induction false} CountOfAll(parent: Nested, ns: seq<Nested>)
    requires forall n :: n in ns ==> n < parent
    ensures CountAll(ns) == |RecordsOfAll(ns)|
    decreases parent, 0, |ns|
  {
    if ns != [] {
      assert ns[0] in ns && forall n :: n in ns[1..] ==> n in ns;
      CountIsRecords(ns[0]);
      CountOfAll(parent, ns[1..]);
    }
  }
}
