/** The order of projected nodes: that of the schema, whatever the order of the selections. */
module ProjectionOrder {
  import opened Common
  import opened IrTrees
  import opened Projections

  datatype Projected = Projected(node: Node, roles: set<Role>, children: seq<Projected>)

  /** Appends the nodes of cs whose build node below p is present and not yet listed. */
  function AppendPresent(present: set<Path>, p: Path, out: seq<Node>, cs: seq<Node>): seq<Node>
    decreases cs
  {
    if cs == [] then out
    else if cs[0] !in out && p + [cs[0]] in present then AppendPresent(present, p, out + [cs[0]], cs[1..])
    else AppendPresent(present, p, out, cs[1..])
  }

  /** The build nodes right below p in the order of their creation. */
  function ChildOrder(order: seq<Path>, p: Path): seq<Node> {
    if order == [] then []
    else if |order[0]| == |p| + 1 && order[0][..|p|] == p then [order[0][|p|]] + ChildOrder(order[1..], p)
    else ChildOrder(order[1..], p)
  }

  /** List keys first if asked for, then schema order, then whatever the schema view does not show. */
  function OrderedChildren(t: Setting, present: set<Path>, order: seq<Path>, p: Path): seq<Node>
    requires p != []
  {
    AppendPresent(present, p, InSchemaOrder(t, present, p), ChildOrder(order, p))
  }

  function InSchemaOrder(t: Setting, present: set<Path>, p: Path): seq<Node>
    requires p != []
  {
    var n := p[|p| - 1];
    var keys := if t.opts.listKeysFirst && KeysAreChildren(n) then AppendPresent(present, p, [], ListKeys(n)) else [];
    AppendPresent(present, p, keys, VisibleChildren(n, t.opts.flattenChoices))
  }

  function RootOrder(t: Setting, present: set<Path>, order: seq<Path>): seq<Node> {
    AppendPresent(present, [], PresentTop(t.top, present), ChildOrder(order, []))
  }

  function PresentTop(top: seq<Node>, present: set<Path>): seq<Node> {
    if top == [] then []
    else if [top[0]] in present then [top[0]] + PresentTop(top[1..], present)
    else PresentTop(top[1..], present)
  }

  lemma {:induction false} AppendedPresent(present: set<Path>, p: Path, out: seq<Node>, cs: seq<Node>)
    requires forall c :: c in out ==> p + [c] in present
    ensures forall c :: c in AppendPresent(present, p, out, cs) ==> p + [c] in present
    ensures forall c :: c in out ==> c in AppendPresent(present, p, out, cs)
    ensures forall c :: c in cs && p + [c] in present ==> c in AppendPresent(present, p, out, cs)
    decreases cs
  {
    if cs != [] {
      if cs[0] !in out && p + [cs[0]] in present {
        AppendedPresent(present, p, out + [cs[0]], cs[1..]);
        assert cs[0] in out + [cs[0]];
      } else {
        AppendedPresent(present, p, out, cs[1..]);
      }
    }
  }

  lemma {:induction false} TopPresent(top: seq<Node>, present: set<Path>)
    ensures forall c :: c in PresentTop(top, present) <==> c in top && [c] in present
  {
    if top != [] {
      TopPresent(top[1..], present);
    }
  }

  lemma OrderedPresent(t: Setting, present: set<Path>, order: seq<Path>, p: Path)
    requires p != []
    ensures forall c :: c in OrderedChildren(t, present, order, p) ==> p + [c] in present
  {
    hide AppendPresent, ListKeys, VisibleChildren, ChildOrder;
    SchemaPresent(t, present, p);
    AppendedPresent(present, p, InSchemaOrder(t, present, p), ChildOrder(order, p));
  }

  lemma SchemaPresent(t: Setting, present: set<Path>, p: Path)
    requires p != []
    ensures forall c :: c in InSchemaOrder(t, present, p) ==> p + [c] in present
    ensures forall c :: c in VisibleChildren(p[|p| - 1], t.opts.flattenChoices) && p + [c] in present ==>
            c in InSchemaOrder(t, present, p)
  {
    hide AppendPresent, ListKeys, VisibleChildren;
    var n := p[|p| - 1];
    AppendedNothing(present, p);
    if t.opts.listKeysFirst && KeysAreChildren(n) {
      AppendedPresent(present, p, [], ListKeys(n));
      AppendedPresent(present, p, AppendPresent(present, p, [], ListKeys(n)),
                      VisibleChildren(n, t.opts.flattenChoices));
    } else {
      AppendedPresent(present, p, [], VisibleChildren(n, t.opts.flattenChoices));
    }
  }

  lemma AppendedNothing(present: set<Path>, p: Path)
    ensures AppendPresent(present, p, [], []) == []
  {
  }

  /** The build nodes deeper than length. */
  function Deeper(present: set<Path>, length: nat): set<Path> { set q | q in present && |q| > length }

  lemma DeeperShrinks(present: set<Path>, p: Path, c: Node)
    requires p + [c] in present
    ensures |Deeper(present, |p| + 1)| < |Deeper(present, |p|)|
  {
    var a, b := Deeper(present, |p| + 1), Deeper(present, |p|);
    assert p + [c] in b && p + [c] !in a;
    assert b == a + (b - a) && p + [c] in b - a;
  }

  function Project(t: Setting, roles: map<Path, set<Role>>, order: seq<Path>, p: Path): Projected
    requires p != [] && p in roles
    decreases |Deeper(roles.Keys, |p|)|
  {
    var cs := OrderedChildren(t, roles.Keys, order, p);
    Projected(p[|p| - 1], roles[p],
              seq(|cs|, i requires 0 <= i < |cs| =>
                OrderedPresent(t, roles.Keys, order, p); DeeperShrinks(roles.Keys, p, cs[i]);
                Project(t, roles, order, p + [cs[i]])))
  }

  function ProjectRoots(t: Setting, roles: map<Path, set<Role>>, order: seq<Path>): seq<Projected> {
    var roots := RootOrder(t, roles.Keys, order);
    seq(|roots|, i requires 0 <= i < |roots| =>
        RootsPresent(t, roles.Keys, order); Project(t, roles, order, [roots[i]]))
  }

  lemma RootsPresent(t: Setting, present: set<Path>, order: seq<Path>)
    ensures forall c :: c in RootOrder(t, present, order) ==> [c] in present
  {
    hide AppendPresent, ChildOrder, PresentTop;
    TopPresent(t.top, present);
    assert forall c: Node :: [] + [c] == [c];
    AppendedPresent(present, [], PresentTop(t.top, present), ChildOrder(order, []));
  }

  // ---- The schema view covers plain selections

  /** p starts at a top-level data node and steps through visible children only. */
  ghost predicate Covered(t: Setting, p: Path) {
    && p != [] && p[0] in t.top
    && forall i :: 0 <= i < |p| - 1 ==> p[i + 1] in VisibleChildren(p[i], t.opts.flattenChoices)
  }

  ghost predicate AllCovered(t: Setting, present: set<Path>) { forall p :: p in present ==> Covered(t, p) }

  lemma {:induction false} NothingToAppend(present: set<Path>, p: Path, out: seq<Node>, cs: seq<Node>)
    requires forall c :: c in cs && p + [c] in present ==> c in out
    ensures AppendPresent(present, p, out, cs) == out
  {
    if cs != [] {
      NothingToAppend(present, p, out, cs[1..]);
    }
  }

  lemma OrderIrrelevant(t: Setting, present: set<Path>, order: seq<Path>, p: Path)
    requires p != [] && AllCovered(t, present)
    ensures OrderedChildren(t, present, order, p) == InSchemaOrder(t, present, p)
  {
    hide AppendPresent, ChildOrder, VisibleChildren, InSchemaOrder;
    SchemaPresent(t, present, p);
    forall c | p + [c] in present
      ensures c in VisibleChildren(p[|p| - 1], t.opts.flattenChoices)
    {
      var q := p + [c];
      var i := |p| - 1;
      assert Covered(t, q);
      assert q[i + 1] in VisibleChildren(q[i], t.opts.flattenChoices);
    }
    NothingToAppend(present, p, InSchemaOrder(t, present, p), ChildOrder(order, p));
  }

  lemma RootOrderIrrelevant(t: Setting, present: set<Path>, order: seq<Path>)
    requires AllCovered(t, present)
    ensures RootOrder(t, present, order) == PresentTop(t.top, present)
  {
    hide AppendPresent, ChildOrder, VisibleChildren, PresentTop;
    TopPresent(t.top, present);
    forall c: Node | [] + [c] in present
      ensures c in PresentTop(t.top, present)
    {
      assert [] + [c] == [c];
      assert Covered(t, [c]);
    }
    NothingToAppend(present, [], PresentTop(t.top, present), ChildOrder(order, []));
  }

  /** The nodes listed right below p, or the roots when p is empty. */
  function ChildrenAt(t: Setting, present: set<Path>, order: seq<Path>, p: Path): seq<Node> {
    if p == [] then RootOrder(t, present, order) else OrderedChildren(t, present, order, p)
  }

  /** Both creation orders list the same children everywhere. */
  ghost predicate SameChildren(t: Setting, present: set<Path>, a: seq<Path>, b: seq<Path>) {
    forall p :: ChildrenAt(t, present, a, p) == ChildrenAt(t, present, b, p)
  }

  lemma {:induction false} ProjectIgnoresOrder(t: Setting, roles: map<Path, set<Role>>, a: seq<Path>, b: seq<Path>,
                                               p: Path)
    requires p != [] && p in roles && SameChildren(t, roles.Keys, a, b)
    ensures Project(t, roles, a, p) == Project(t, roles, b, p)
    decreases |Deeper(roles.Keys, |p|)|
  {
    hide OrderedChildren, RootOrder, Deeper;
    assert ChildrenAt(t, roles.Keys, a, p) == ChildrenAt(t, roles.Keys, b, p);
    var cs := OrderedChildren(t, roles.Keys, a, p);
    OrderedPresent(t, roles.Keys, a, p);
    forall i | 0 <= i < |cs|
      ensures p + [cs[i]] in roles && Project(t, roles, a, p + [cs[i]]) == Project(t, roles, b, p + [cs[i]])
    {
      DeeperShrinks(roles.Keys, p, cs[i]);
      ProjectIgnoresOrder(t, roles, a, b, p + [cs[i]]);
    }
    assert Project(t, roles, a, p).children == Project(t, roles, b, p).children;
  }

  lemma SameChildrenSuffice(t: Setting, roles: map<Path, set<Role>>, a: seq<Path>, b: seq<Path>)
    requires SameChildren(t, roles.Keys, a, b)
    ensures ProjectRoots(t, roles, a) == ProjectRoots(t, roles, b)
  {
    hide RootOrder, OrderedChildren, Project;
    assert ChildrenAt(t, roles.Keys, a, []) == ChildrenAt(t, roles.Keys, b, []);
    RootsPresent(t, roles.Keys, a);
    var roots := RootOrder(t, roles.Keys, a);
    forall i | 0 <= i < |roots|
      ensures Project(t, roles, a, [roots[i]]) == Project(t, roles, b, [roots[i]])
    {
      ProjectIgnoresOrder(t, roles, a, b, [roots[i]]);
    }
    assert ProjectRoots(t, roles, a) == ProjectRoots(t, roles, b);
  }

  /** With every build node covered by the schema view, the creation order plays no part. */
  lemma RootsIgnoreOrder(t: Setting, roles: map<Path, set<Role>>, a: seq<Path>, b: seq<Path>)
    requires AllCovered(t, roles.Keys)
    ensures ProjectRoots(t, roles, a) == ProjectRoots(t, roles, b)
  {
    hide RootOrder, OrderedChildren, AllCovered, ProjectRoots;
    forall p
      ensures ChildrenAt(t, roles.Keys, a, p) == ChildrenAt(t, roles.Keys, b, p)
    {
      if p == [] {
        RootOrderIrrelevant(t, roles.Keys, a);
        RootOrderIrrelevant(t, roles.Keys, b);
      } else {
        OrderIrrelevant(t, roles.Keys, a, p);
        OrderIrrelevant(t, roles.Keys, b, p);
      }
    }
    SameChildrenSuffice(t, roles, a, b);
  }

  /** The nodes of cs that are present below p and not in out. */
  function FreshPresent(present: set<Path>, p: Path, out: seq<Node>, cs: seq<Node>): seq<Node> {
    if cs == [] then []
    else (if cs[0] !in out && p + [cs[0]] in present then [cs[0]] else []) + FreshPresent(present, p, out, cs[1..])
  }

  lemma {:induction false} AppendIsFilter(present: set<Path>, p: Path, out: seq<Node>, seen: seq<Node>, cs: seq<Node>)
    requires Distinct(cs) && forall c :: c in cs ==> (c in out <==> c in seen)
    ensures AppendPresent(present, p, out, cs) == out + FreshPresent(present, p, seen, cs)
    decreases cs
  {
    if cs != [] {
      var rest := cs[1..];
      DistinctTail(cs);
      var more := FreshPresent(present, p, seen, rest);
      assert cs[0] in cs && forall c :: c in rest ==> c in cs;
      if cs[0] !in out && p + [cs[0]] in present {
        AppendIsFilter(present, p, out + [cs[0]], seen, rest);
        assert out + [cs[0]] + more == out + ([cs[0]] + more);
      } else {
        AppendIsFilter(present, p, out, seen, rest);
        assert [] + more == more;
      }
    }
  }

  lemma DistinctTail<T>(s: seq<T>)
    requires s != [] && Distinct(s)
    ensures Distinct(s[1..]) && s[0] !in s[1..]
  {
  }

  /** Below a covered node: the list keys if they come first, then the other data children, both in schema order. */
  lemma {:induction false} KeysThenData(t: Setting, present: set<Path>, order: seq<Path>, p: Path)
    requires p != [] && AllCovered(t, present) && KeysAreChildren(p[|p| - 1])
    requires Distinct(ListKeys(p[|p| - 1])) && Distinct(VisibleChildren(p[|p| - 1], t.opts.flattenChoices))
    ensures var n := p[|p| - 1];
            var keys := if t.opts.listKeysFirst then FreshPresent(present, p, [], ListKeys(n)) else [];
            OrderedChildren(t, present, order, p) ==
              keys + FreshPresent(present, p, keys, VisibleChildren(n, t.opts.flattenChoices))
  {
    hide AppendPresent, ListKeys, VisibleChildren, FreshPresent, OrderedChildren;
    var n := p[|p| - 1];
    OrderIrrelevant(t, present, order, p);
    AppendIsFilter(present, p, [], [], ListKeys(n));
    assert [] + FreshPresent(present, p, [], ListKeys(n)) == FreshPresent(present, p, [], ListKeys(n));
    var keys := if t.opts.listKeysFirst then FreshPresent(present, p, [], ListKeys(n)) else [];
    AppendIsFilter(present, p, keys, keys, VisibleChildren(n, t.opts.flattenChoices));
  }
}
