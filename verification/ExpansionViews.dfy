/**
 What the built schema looks like from outside: which nodes, in which order, a path of names
 leads to.  The view of a list of statements is put together from the statements themselves.
 */
module ExpansionViews {
  import opened Common
  import opened Expansion

  datatype Head = Head(name: string, kind: Kind)

  /** For every path of names the nodes below its end, in order; None where it leads nowhere. */
  type View = seq<string> -> Option<seq<Head>>

  function Heads(nodes: seq<Node>): (r: seq<Head>)
    ensures |r| == |nodes| && forall i :: 0 <= i < |r| ==> r[i] == Head(nodes[i].name, nodes[i].kind)
  {
    seq(|nodes|, i requires 0 <= i < |nodes| => Head(nodes[i].name, nodes[i].kind))
  }

  /** Names lead to the first sibling so named. */
  function At(nodes: seq<Node>, path: seq<string>): Option<seq<Head>>
    decreases |path|
  {
    if path == [] then Some(Heads(nodes))
    else
      var i := FirstNamed(nodes, path[0]);
      if i == |nodes| then None else At(nodes[i].children, path[1..])
  }

  ghost predicate Shows(nodes: seq<Node>, v: View) { forall path :: At(nodes, path) == v(path) }

  // ---- Putting views together

  ghost function Nothing(): View { path => if path == [] then Some([]) else None }

  ghost function Roots(v: View): seq<Head> { if v([]).Some? then v([]).value else [] }

  /** One node with what is below it. */
  ghost function Under(head: Head, below: View): View {
    path => if path == [] then Some([head]) else if path[0] == head.name then below(path[1..]) else None
  }

  /** Two lists of siblings, the second after the first. */
  ghost function Beside(v: View, w: View): View {
    path => if path == [] then Some(Roots(v) + Roots(w)) else if v(path[..1]).Some? then v(path) else w(path)
  }

  /** more added at the end of the nodes below target. */
  ghost function Added(v: View, target: seq<string>, more: View): View {
    path =>
      if path == target then Some((if v(target).Some? then v(target).value else []) + Roots(more))
      else if |target| < |path| && path[..|target|] == target && v(path[..|target| + 1]).None? then
        more(path[|target|..])
      else v(path)
  }

  ghost predicate NamedIn(heads: seq<Head>, name: string) { exists h :: h in heads && h.name == name }

  /** The kind of the first node so named. */
  ghost function KindIn(heads: seq<Head>, name: string): Option<Kind> {
    if heads == [] then None else if heads[0].name == name then Some(heads[0].kind) else KindIn(heads[1..], name)
  }

  /** Every node that is not a case inside a case of its name. */
  ghost function Cased(v: View): View {
    path =>
      if path == [] then Some(seq(|Roots(v)|, i requires 0 <= i < |Roots(v)| => Head(Roots(v)[i].name, Case)))
      else match KindIn(Roots(v), path[0])
        case None => None
        case Some(kind) =>
          if kind.Case? then v(path)
          else if |path| == 1 then Some([Head(path[0], kind)])
          else if path[1] == path[0] then v(path[1..])
          else None
  }

  /** An operation has an input before and an output after all else, if it declares none. */
  ghost function WithIO(kind: Kind, v: View): View {
    if !kind.Rpc? && !kind.Action? then v
    else
      var withInput := if NamedIn(Roots(v), "input") then v else Beside(Under(Head("input", Input), Nothing()), v);
      if NamedIn(Roots(withInput), "output") then withInput
      else Beside(withInput, Under(Head("output", Output), Nothing()))
  }

  // ---- The views of statements

  /** No uses may stand below nodes of these kinds. */
  predicate TakesNoUses(kind: Kind) { kind in {Leaf, LeafList, AnyData, AnyXml, Choice, Rpc, Action} }

  /** Statements of these kinds are no nodes below a module or a choice; an operation is one below a module. */
  predicate NoChildHere(kind: Kind) { kind in {ModuleRoot, Rpc, Input, Output} }

  /** A node, named as its statement, with what its substatements give. */
  ghost function NodeView(g: Groupings, st: Stmt, stack: set<GroupId>): View
    requires st.NodeStmt?
    decreases g.Keys - stack, Size(st), 1
  {
    Under(Head(st.name, st.kind), WithIO(st.kind, ChildrenView(g, st.body, st.kind, stack)))
  }

  /** The statements in order. */
  ghost function ChildrenView(g: Groupings, sts: seq<Stmt>, parent: Kind, stack: set<GroupId>): View
    decreases g.Keys - stack, SizeAll(sts), 5
  {
    if sts == [] then Nothing()
    else Beside(ChildView(g, sts[0], parent, stack), ChildrenView(g, sts[1..], parent, stack))
  }

  /** An included statement gives its node, a uses the nodes of its grouping, a choice one that holds cases. */
  ghost function ChildView(g: Groupings, st: Stmt, parent: Kind, stack: set<GroupId>): View
    decreases g.Keys - stack, Size(st), 4
  {
    if !st.included then Nothing()
    else match st
      case UsesStmt(_, _, _) => if TakesNoUses(parent) then Nothing() else UsesView(g, st, parent, stack)
      case NodeStmt(kind, name, _, body) =>
        if kind.Choice? then Under(Head(name, Choice), CasesView(g, body, stack))
        else if kind.Rpc? || kind.ModuleRoot? then Nothing()
        else NodeView(g, st, stack)
  }

  ghost function CasesView(g: Groupings, sts: seq<Stmt>, stack: set<GroupId>): View
    decreases g.Keys - stack, SizeAll(sts), 5
  {
    if sts == [] then Nothing()
    else Beside(CaseView(g, sts[0], stack), CasesView(g, sts[1..], stack))
  }

  /** Below a choice a node that is not a case stands in a case of its name. */
  ghost function CaseView(g: Groupings, st: Stmt, stack: set<GroupId>): View
    decreases g.Keys - stack, Size(st), 2
  {
    if !st.included || st.UsesStmt? || NoChildHere(st.kind) then Nothing()
    else if st.kind.Case? then NodeView(g, st, stack)
    else Under(Head(st.name, Case), NodeView(g, st, stack))
  }

  ghost function UsesView(g: Groupings, st: Stmt, parent: Kind, stack: set<GroupId>): View
    requires st.UsesStmt?
    decreases g.Keys - stack, Size(st), 1
  {
    if st.group.None? || st.group.value !in g || st.group.value in stack then Nothing()
    else
      var group := st.group.value;
      assert group in g.Keys - stack;
      AugmentsView(g, st.augments, ChildrenView(g, g[group], parent, stack + {group}), stack + {group})
  }

  /** Each augment in turn adds its nodes below its target, if it is there. */
  ghost function AugmentsView(g: Groupings, augments: seq<UsesAugment>, before: View, stack: set<GroupId>): View
    decreases g.Keys - stack, SizeAugments(augments), 0
  {
    if augments == [] then before
    else AugmentsView(g, augments[1..], AugmentView(g, augments[0], before, stack), stack)
  }

  ghost function AugmentView(g: Groupings, aug: UsesAugment, before: View, stack: set<GroupId>): View
    decreases g.Keys - stack, SizeAll(aug.body), 7
  {
    match TargetKind(before, aug.path)
    case None => before
    case Some(kind) =>
      if !aug.included then before else Added(before, aug.path, AugmentBodyView(g, aug.body, kind, stack))
  }

  ghost function AugmentBodyView(g: Groupings, sts: seq<Stmt>, target: Kind, stack: set<GroupId>): View
    decreases g.Keys - stack, SizeAll(sts), 6
  {
    var v := ChildrenView(g, sts, target, stack);
    if target.Choice? then Cased(v) else v
  }

  /** The kind of the node a path of at least one name leads to. */
  ghost function TargetKind(v: View, path: seq<string>): Option<Kind> {
    if path == [] then None
    else
      var last := |path| - 1;
      match v(path[..last])
      case None => None
      case Some(siblings) => KindIn(siblings, path[last])
  }

  /** A module's own statements; a choice among them is built like any other node. */
  ghost function TopView(g: Groupings, sts: seq<Stmt>): View {
    if sts == [] then Nothing() else Beside(TopStatementView(g, sts[0]), TopView(g, sts[1..]))
  }

  ghost function TopStatementView(g: Groupings, st: Stmt): View {
    if !st.included then Nothing()
    else if st.UsesStmt? then UsesView(g, st, ModuleRoot, {})
    else if st.kind.Rpc? || !NoChildHere(st.kind) then NodeView(g, st, {})
    else Nothing()
  }

  // ---- Trees put together show views put together

  lemma NothingShown()
    ensures Shows([], Nothing())
  {
    forall path
      ensures At([], path) == Nothing()(path)
    {
      assert Heads([]) == [];
    }
  }

  lemma RootsShown(nodes: seq<Node>, v: View)
    requires Shows(nodes, v)
    ensures Roots(v) == Heads(nodes) && v([]) == Some(Heads(nodes))
  {
    assert At(nodes, []) == v([]);
  }

  lemma OneShown(n: Node, below: View)
    requires Shows(n.children, below)
    ensures Shows([n], Under(Head(n.name, n.kind), below))
  {
    forall path
      ensures At([n], path) == Under(Head(n.name, n.kind), below)(path)
    {
      if path == [] {
        assert Heads([n]) == [Head(n.name, n.kind)];
      } else {
        assert FirstNamed([n], path[0]) == if n.name == path[0] then 0 else 1;
        assert At(n.children, path[1..]) == below(path[1..]);
      }
    }
  }

  lemma {:induction false} FirstNamedConcat(a: seq<Node>, b: seq<Node>, name: string)
    ensures FirstNamed(a + b, name) ==
            if FirstNamed(a, name) < |a| then FirstNamed(a, name) else |a| + FirstNamed(b, name)
  {
    if a == [] {
      assert a + b == b;
    } else {
      assert (a + b)[1..] == a[1..] + b;
      FirstNamedConcat(a[1..], b, name);
    }
  }

  lemma FirstStep(nodes: seq<Node>, path: seq<string>)
    requires path != []
    ensures At(nodes, path[..1]).Some? <==> FirstNamed(nodes, path[0]) < |nodes|
  {
    assert path[..1][0] == path[0] && path[..1][1..] == [];
  }

  lemma HeadsConcat(a: seq<Node>, b: seq<Node>)
    ensures Heads(a + b) == Heads(a) + Heads(b)
  {
  }

  /** The first list hides what bears the same name in the second. */
  lemma AtConcat(a: seq<Node>, b: seq<Node>, path: seq<string>)
    ensures At(a + b, path) ==
              if path == [] then Some(Heads(a) + Heads(b))
              else if At(a, path[..1]).Some? then At(a, path)
              else At(b, path)
  {
    hide Heads, FirstNamed;
    HeadsConcat(a, b);
    if path != [] {
      FirstStep(a, path);
      FirstNamedConcat(a, b, path[0]);
      var i, k := FirstNamed(a, path[0]), FirstNamed(b, path[0]);
      assert i < |a| ==> (a + b)[i] == a[i];
      assert i == |a| && k < |b| ==> (a + b)[i + k] == b[k];
    }
  }

  lemma BesideShown(a: seq<Node>, b: seq<Node>, v: View, w: View)
    requires Shows(a, v) && Shows(b, w)
    ensures Shows(a + b, Beside(v, w))
  {
    hide At, Heads;
    RootsShown(a, v);
    RootsShown(b, w);
    forall path
      ensures At(a + b, path) == Beside(v, w)(path)
    {
      AtConcat(a, b, path);
      assert At(a, path) == v(path) && At(b, path) == w(path);
      if path != [] {
        assert At(a, path[..1]) == v(path[..1]);
      }
    }
  }

  // ---- Get after put

  /** An augment's nodes end up after those its target had; every other path leads where it led, or into them. */
  lemma {:induction false} AppendedAt(nodes: seq<Node>, target: seq<string>, added: seq<Node>, path: seq<string>)
    requires FindRelative(nodes, target).Some?
    ensures At(nodes, target).Some?
    ensures At(AppendAt(nodes, target, added), path) ==
              if path == target then Some(At(nodes, target).value + Heads(added))
              else if |target| < |path| && path[..|target|] == target && At(nodes, path[..|target| + 1]).None? then
                At(added, path[|target|..])
              else At(nodes, path)
    decreases |target|
  {
    hide Heads, At, AppendAt, FindRelative, FirstNamed;
    FoundStep(nodes, target);
    var n := nodes[FirstNamed(nodes, target[0])];
    if |target| == 1 {
      assert target[1..] == [];
      AtConcat(n.children, added, []);
      AtConcat(n.children, added, if path == [] then [] else path[1..]);
    } else {
      AppendedAt(n.children, target[1..], added, []);
      AppendedAt(n.children, target[1..], added, if path == [] then [] else path[1..]);
    }
    AppendedOneStep(nodes, target, added, path);
    AppendedOneStep(nodes, target, added, target);
    if path != [] && path[0] == target[0] {
      PrefixStep(nodes, target, path);
    }
  }

  lemma FoundStep(nodes: seq<Node>, target: seq<string>)
    requires FindRelative(nodes, target).Some?
    ensures target != [] && FirstNamed(nodes, target[0]) < |nodes|
    ensures var below := nodes[FirstNamed(nodes, target[0])].children; At(below, []) == Some(Heads(below))
    ensures |target| > 1 ==> FindRelative(nodes[FirstNamed(nodes, target[0])].children, target[1..]).Some?
  {
  }

  /** The first step: another name leads where it led, and the target's name to the node with the rest done. */
  lemma AppendedOneStep(nodes: seq<Node>, target: seq<string>, added: seq<Node>, path: seq<string>)
    requires FindRelative(nodes, target).Some?
    ensures var n := nodes[FirstNamed(nodes, target[0])];
            var below := if |target| == 1 then n.children + added else AppendAt(n.children, target[1..], added);
            At(AppendAt(nodes, target, added), path) ==
              if path != [] && path[0] == target[0] then At(below, path[1..]) else At(nodes, path)
    ensures path != [] && path[0] == target[0] ==>
              At(nodes, path) == At(nodes[FirstNamed(nodes, target[0])].children, path[1..])
  {
    var r := AppendAt(nodes, target, added);
    if path == [] {
      assert Heads(r) == Heads(nodes);
    } else {
      SameFirstNamed(nodes, r, path[0]);
    }
  }

  lemma {:induction false} SameFirstNamed(a: seq<Node>, b: seq<Node>, name: string)
    requires |a| == |b| && forall i :: 0 <= i < |a| ==> a[i].name == b[i].name
    ensures FirstNamed(a, name) == FirstNamed(b, name)
  {
    if a != [] {
      SameFirstNamed(a[1..], b[1..], name);
    }
  }

  /** Paths that start alike compare like their rests. */
  lemma PrefixStep(nodes: seq<Node>, target: seq<string>, path: seq<string>)
    requires target != [] && path != [] && path[0] == target[0] && FirstNamed(nodes, path[0]) < |nodes|
    ensures path == target <==> path[1..] == target[1..]
    ensures |target| < |path| ==>
              && (path[..|target|] == target <==> path[1..][..|target[1..]|] == target[1..])
              && path[|target|..] == path[1..][|target[1..]|..]
              && At(nodes, path[..|target| + 1]) ==
                 At(nodes[FirstNamed(nodes, path[0])].children, path[1..][..|target[1..]| + 1])
  {
    hide FirstNamed;
    SameFirst(path, target);
    if |target| < |path| {
      var longer := path[..|target| + 1];
      SameFirst(path[..|target|], target);
      assert path[..|target|][1..] == path[1..][..|target[1..]|];
      assert longer[0] == path[0] && longer[1..] == path[1..][..|target[1..]| + 1];
    }
  }

  lemma SameFirst<T>(a: seq<T>, b: seq<T>)
    requires a != [] && b != [] && a[0] == b[0]
    ensures a == b <==> a[1..] == b[1..]
  {
    assert a == [a[0]] + a[1..] && b == [b[0]] + b[1..];
  }

  lemma AddedShown(nodes: seq<Node>, v: View, target: seq<string>, added: seq<Node>, more: View)
    requires Shows(nodes, v) && Shows(added, more) && FindRelative(nodes, target).Some?
    ensures Shows(AppendAt(nodes, target, added), Added(v, target, more))
  {
    hide AppendAt, At, FindRelative;
    RootsShown(added, more);
    forall path
      ensures At(AppendAt(nodes, target, added), path) == Added(v, target, more)(path)
    {
      AppendedAt(nodes, target, added, path);
      assert At(nodes, path) == v(path) && At(nodes, target) == v(target);
      if |target| < |path| {
        assert At(nodes, path[..|target| + 1]) == v(path[..|target| + 1]);
        assert At(added, path[|target|..]) == more(path[|target|..]);
      }
    }
  }

  // ---- Kinds

  lemma {:induction false} KindOfFirst(nodes: seq<Node>, name: string)
    ensures var i := FirstNamed(nodes, name);
            KindIn(Heads(nodes), name) == if i == |nodes| then None else Some(nodes[i].kind)
  {
    if nodes != [] {
      assert Heads(nodes)[1..] == Heads(nodes[1..]);
      KindOfFirst(nodes[1..], name);
    }
  }

  lemma {:induction false} FoundKind(nodes: seq<Node>, path: seq<string>)
    requires path != []
    ensures var last := |path| - 1;
            FindRelative(nodes, path).Some? <==>
            At(nodes, path[..last]).Some? && KindIn(At(nodes, path[..last]).value, path[last]).Some?
    ensures FindRelative(nodes, path).Some? ==>
              KindIn(At(nodes, path[..|path| - 1]).value, path[|path| - 1]) ==
                Some(FindRelative(nodes, path).value.kind)
    decreases |path|
  {
    hide KindIn;
    var last := |path| - 1;
    var i := FirstNamed(nodes, path[0]);
    if |path| == 1 {
      assert path[..last] == [];
      KindOfFirst(nodes, path[0]);
    } else {
      assert path[..last][0] == path[0] && path[..last][1..] == path[1..][..last - 1];
      if i < |nodes| {
        FoundKind(nodes[i].children, path[1..]);
      }
    }
  }

  lemma TargetShown(nodes: seq<Node>, v: View, path: seq<string>)
    requires Shows(nodes, v)
    ensures TargetKind(v, path) ==
              if FindRelative(nodes, path).Some? then Some(FindRelative(nodes, path).value.kind) else None
  {
    hide FindRelative, At, KindIn;
    if path == [] {
      NoPathFinds(nodes);
    } else {
      FoundKind(nodes, path);
      assert At(nodes, path[..|path| - 1]) == v(path[..|path| - 1]);
    }
  }

  lemma NoPathFinds(nodes: seq<Node>)
    ensures FindRelative(nodes, []).None?
  {
  }

  // ---- Cases

  lemma {:induction false} WrappedNodes(nodes: seq<Node>)
    ensures |WrapInCases(nodes)| == |nodes|
    ensures forall i :: 0 <= i < |nodes| ==>
              WrapInCases(nodes)[i] == if nodes[i].kind.Case? then nodes[i] else Node(nodes[i].name, Case, [nodes[i]])
  {
    if nodes != [] {
      WrappedNodes(nodes[1..]);
    }
  }

  lemma CasedShown(nodes: seq<Node>, v: View)
    requires Shows(nodes, v)
    ensures Shows(WrapInCases(nodes), Cased(v))
  {
    hide KindIn, WrapInCases;
    WrappedNodes(nodes);
    RootsShown(nodes, v);
    var r := WrapInCases(nodes);
    forall path
      ensures At(r, path) == Cased(v)(path)
    {
      assert At(nodes, path) == v(path);
      if path == [] {
        assert Heads(r) == seq(|Roots(v)|, i requires 0 <= i < |Roots(v)| => Head(Roots(v)[i].name, Case));
      } else {
        SameFirstNamed(nodes, r, path[0]);
        KindOfFirst(nodes, path[0]);
        var i := FirstNamed(nodes, path[0]);
        if i < |nodes| && !nodes[i].kind.Case? {
          var n := nodes[i];
          assert r[i].children == [n] && Heads([n]) == [Head(path[0], n.kind)];
          if |path| > 1 {
            assert At(nodes, path[1..]) == v(path[1..]);
            assert FirstNamed([n], path[1]) == if n.name == path[1] then 0 else 1;
          }
        }
      }
    }
  }

  lemma InputOutputShown(kind: Kind, nodes: seq<Node>, v: View)
    requires Shows(nodes, v)
    ensures Shows(WithOperationIO(kind, nodes), WithIO(kind, v))
  {
    hide At, Shows, Under, Nothing, Beside;
    if kind.Rpc? || kind.Action? {
      NothingShown();
      var input, output := Node("input", Input, []), Node("output", Output, []);
      OneShown(input, Nothing());
      OneShown(output, Nothing());
      BesideShown([input], nodes, Under(Head("input", Input), Nothing()), v);
      NamedShown(nodes, v, "input");
      var withInput := if HasChild(nodes, "input") then nodes else [input] + nodes;
      var w := if NamedIn(Roots(v), "input") then v else Beside(Under(Head("input", Input), Nothing()), v);
      NamedShown(withInput, w, "output");
      BesideShown(withInput, [output], w, Under(Head("output", Output), Nothing()));
    }
  }

  lemma NamedShown(nodes: seq<Node>, v: View, name: string)
    requires Shows(nodes, v)
    ensures HasChild(nodes, name) <==> NamedIn(Roots(v), name)
  {
    RootsShown(nodes, v);
    if HasChild(nodes, name) {
      var c :| c in nodes && c.name == name;
      var i :| 0 <= i < |nodes| && nodes[i] == c;
      assert Heads(nodes)[i] in Heads(nodes);
    }
    if NamedIn(Heads(nodes), name) {
      var h :| h in Heads(nodes) && h.name == name;
      var i :| 0 <= i < |nodes| && Heads(nodes)[i] == h;
      assert nodes[i] in nodes;
    }
  }

  // ---- What is built shows the views of the statements

  lemma {:induction false} NodeShown(g: Groupings, st: Stmt, stack: set<GroupId>)
    requires st.NodeStmt?
    ensures Shows(BuildNode(g, st, stack).nodes, NodeView(g, st, stack))
    decreases g.Keys - stack, Size(st), 1
  {
    hide Shows, WithOperationIO, WithIO, Under, BuildChildren, ChildrenView;
    ChildrenShown(g, st.body, st.kind, stack);
    InputOutputShown(st.kind, BuildChildren(g, st.body, st.kind, stack).nodes,
                     ChildrenView(g, st.body, st.kind, stack));
    OneShown(BuildNode(g, st, stack).nodes[0], WithIO(st.kind, ChildrenView(g, st.body, st.kind, stack)));
  }

  /** The children built for a list of statements: one after another, in statement order. */
  lemma {:induction false} ChildrenShown(g: Groupings, sts: seq<Stmt>, parent: Kind, stack: set<GroupId>)
    ensures Shows(BuildChildren(g, sts, parent, stack).nodes, ChildrenView(g, sts, parent, stack))
    decreases g.Keys - stack, SizeAll(sts), 5
  {
    hide Shows, Beside, Nothing, BuildChild, ChildView;
    if sts == [] {
      NothingShown();
    } else {
      ChildShown(g, sts[0], parent, stack);
      ChildrenShown(g, sts[1..], parent, stack);
      BesideShown(BuildChild(g, sts[0], parent, stack).nodes, BuildChildren(g, sts[1..], parent, stack).nodes,
                  ChildView(g, sts[0], parent, stack), ChildrenView(g, sts[1..], parent, stack));
    }
  }

  lemma {:induction false} ChildShown(g: Groupings, st: Stmt, parent: Kind, stack: set<GroupId>)
    ensures Shows(BuildChild(g, st, parent, stack).nodes, ChildView(g, st, parent, stack))
    decreases g.Keys - stack, Size(st), 4
  {
    hide Shows, Under, Nothing, BuildNode, NodeView, ExpandUses, UsesView, BuildCases, CasesView;
    NothingShown();
    if st.included {
      if st.UsesStmt? {
        UsesShown(g, st, parent, stack);
      } else {
        NodeShown(g, st, stack);
        if st.kind.Choice? {
          CasesShown(g, st.body, stack);
          BuiltHead(g, st, stack);
          OneShown(BuildChoice(g, st, stack).nodes[0], CasesView(g, st.body, stack));
        }
      }
    }
  }

  lemma BuiltHead(g: Groupings, st: Stmt, stack: set<GroupId>)
    requires st.NodeStmt?
    ensures BuildNode(g, st, stack).nodes[0].name == st.name && BuildNode(g, st, stack).nodes[0].kind == st.kind
  {
  }

  lemma {:induction false} CasesShown(g: Groupings, sts: seq<Stmt>, stack: set<GroupId>)
    ensures Shows(BuildCases(g, sts, stack).nodes, CasesView(g, sts, stack))
    decreases g.Keys - stack, SizeAll(sts), 5
  {
    hide Shows, Beside, Nothing, BuildCase, CaseView;
    if sts == [] {
      NothingShown();
    } else {
      CaseShown(g, sts[0], stack);
      CasesShown(g, sts[1..], stack);
      BesideShown(BuildCase(g, sts[0], stack).nodes, BuildCases(g, sts[1..], stack).nodes,
                  CaseView(g, sts[0], stack), CasesView(g, sts[1..], stack));
    }
  }

  lemma {:induction false} CaseShown(g: Groupings, st: Stmt, stack: set<GroupId>)
    ensures Shows(BuildCase(g, st, stack).nodes, CaseView(g, st, stack))
    decreases g.Keys - stack, Size(st), 2
  {
    hide Shows, Under, Nothing, BuildNode, NodeView;
    NothingShown();
    if st.included && st.NodeStmt? && IsSchemaChild(st.kind) {
      NodeShown(g, st, stack);
      if !st.kind.Case? {
        OneShown(BuildCase(g, st, stack).nodes[0], NodeView(g, st, stack));
      }
    }
  }

  lemma {:induction false} UsesShown(g: Groupings, st: Stmt, parent: Kind, stack: set<GroupId>)
    requires st.UsesStmt?
    ensures Shows(ExpandUses(g, st, parent, stack).nodes, UsesView(g, st, parent, stack))
    decreases g.Keys - stack, Size(st), 1
  {
    hide Shows, Nothing, BuildChildren, ChildrenView, ApplyUsesAugments, AugmentsView;
    NothingShown();
    if st.group.Some? && st.group.value in g && st.group.value !in stack {
      var group := st.group.value;
      assert group in g.Keys - stack;
      ChildrenShown(g, g[group], parent, stack + {group});
      AugmentsShown(g, st.augments, BuildChildren(g, g[group], parent, stack + {group}),
                    ChildrenView(g, g[group], parent, stack + {group}), stack + {group});
    }
  }

  lemma {:induction false} AugmentsShown(g: Groupings, augments: seq<UsesAugment>, before: Built, v: View,
                                         stack: set<GroupId>)
    requires Shows(before.nodes, v)
    ensures Shows(ApplyUsesAugments(g, augments, before, stack).nodes, AugmentsView(g, augments, v, stack))
    decreases g.Keys - stack, SizeAugments(augments), 0
  {
    hide Shows, ApplyUsesAugment, AugmentView;
    if augments != [] {
      AugmentShown(g, augments[0], before, v, stack);
      AugmentsShown(g, augments[1..], ApplyUsesAugment(g, augments[0], before, stack),
                    AugmentView(g, augments[0], v, stack), stack);
    }
  }

  lemma {:induction false} AugmentShown(g: Groupings, aug: UsesAugment, before: Built, v: View, stack: set<GroupId>)
    requires Shows(before.nodes, v)
    ensures Shows(ApplyUsesAugment(g, aug, before, stack).nodes, AugmentView(g, aug, v, stack))
    decreases g.Keys - stack, SizeAll(aug.body), 7
  {
    hide Shows, FindRelative, AppendAt, TargetKind, BuildAugmentChildren, AugmentBodyView, Added;
    TargetShown(before.nodes, v, aug.path);
    if aug.included && FindRelative(before.nodes, aug.path).Some? {
      var kind := FindRelative(before.nodes, aug.path).value.kind;
      AugmentBodyShown(g, aug.body, kind, stack);
      AddedShown(before.nodes, v, aug.path, BuildAugmentChildren(g, aug.body, kind, stack).nodes,
                 AugmentBodyView(g, aug.body, kind, stack));
    }
  }

  /** What an augment brings: its nodes in statement order, below a choice each in a case. */
  lemma {:induction false} AugmentBodyShown(g: Groupings, sts: seq<Stmt>, target: Kind, stack: set<GroupId>)
    ensures Shows(BuildAugmentChildren(g, sts, target, stack).nodes, AugmentBodyView(g, sts, target, stack))
    decreases g.Keys - stack, SizeAll(sts), 6
  {
    hide Shows, BuildChildren, ChildrenView, Cased;
    ChildrenShown(g, sts, target, stack);
    CasedShown(BuildChildren(g, sts, target, stack).nodes, ChildrenView(g, sts, target, stack));
  }

  /** Along every path of names a module's built schema shows what its statements say. */
  lemma {:induction false} ModuleShown(g: Groupings, sts: seq<Stmt>)
    ensures Shows(BuildTop(g, sts).nodes, TopView(g, sts))
  {
    hide Shows, Beside, Nothing, BuildTopStatement, TopStatementView;
    NothingShown();
    if sts != [] {
      TopStatementShown(g, sts[0]);
      ModuleShown(g, sts[1..]);
      BesideShown(BuildTopStatement(g, sts[0]).nodes, BuildTop(g, sts[1..]).nodes, TopStatementView(g, sts[0]),
                  TopView(g, sts[1..]));
    }
  }

  lemma TopStatementShown(g: Groupings, st: Stmt)
    ensures Shows(BuildTopStatement(g, st).nodes, TopStatementView(g, st))
  {
    hide Shows, Nothing, BuildNode, NodeView, ExpandUses, UsesView;
    NothingShown();
    if st.UsesStmt? {
      UsesShown(g, st, ModuleRoot, {});
    } else {
      NodeShown(g, st, {});
    }
  }

  // ---- The nodes of a list of statements

  /** In statement order the nodes named by the included statements, a uses standing for the nodes of its grouping. */
  ghost function Named(g: Groupings, sts: seq<Stmt>, parent: Kind, stack: set<GroupId>): seq<Head>
    decreases g.Keys - stack, SizeAll(sts)
  {
    if sts == [] then []
    else
      (match sts[0]
       case NodeStmt(kind, name, included, _) =>
         if included && kind !in {Rpc, ModuleRoot} then [Head(name, kind)] else []
       case UsesStmt(group, included, _) =>
         if included && !TakesNoUses(parent) && group.Some? && group.value in g && group.value !in stack then
           assert group.value in g.Keys - stack;
           Named(g, g[group.value], parent, stack + {group.value})
         else [])
      + Named(g, sts[1..], parent, stack)
  }

  lemma OneHead(n: Node)
    ensures Heads([n]) == [Head(n.name, n.kind)]
  {
  }

  lemma NodeNamed(g: Groupings, st: Stmt, parent: Kind, stack: set<GroupId>)
    requires st.NodeStmt?
    ensures Heads(BuildChild(g, st, parent, stack).nodes) ==
            if st.included && st.kind !in {Rpc, ModuleRoot} then [Head(st.name, st.kind)] else []
  {
    hide BuildNode, Heads;
    assert Heads([]) == [];
    BuiltHead(g, st, stack);
    OneHead(BuildNode(g, st, stack).nodes[0]);
    OneHead(BuildChoice(g, st, stack).nodes[0]);
  }

  lemma {:induction false} ChildrenNamed(g: Groupings, sts: seq<Stmt>, parent: Kind, stack: set<GroupId>)
    ensures Heads(BuildChildren(g, sts, parent, stack).nodes) == Named(g, sts, parent, stack)
    decreases g.Keys - stack, SizeAll(sts), 1
  {
    hide BuildChild, Heads;
    if sts == [] {
      assert Heads([]) == [];
    } else {
      var st := sts[0];
      ChildrenNamed(g, sts[1..], parent, stack);
      HeadsConcat(BuildChild(g, st, parent, stack).nodes, BuildChildren(g, sts[1..], parent, stack).nodes);
      assert Heads([]) == [];
      if st.NodeStmt? {
        NodeNamed(g, st, parent, stack);
      } else {
        UsesNamed(g, st, parent, stack);
      }
    }
  }

  lemma {:induction false} UsesNamed(g: Groupings, st: Stmt, parent: Kind, stack: set<GroupId>)
    requires st.UsesStmt?
    ensures Heads(BuildChild(g, st, parent, stack).nodes) ==
            if st.included && !TakesNoUses(parent) && st.group.Some? && st.group.value in g
               && st.group.value !in stack then
              Named(g, g[st.group.value], parent, stack + {st.group.value})
            else []
    decreases g.Keys - stack, Size(st), 0
  {
    hide BuildChildren, ApplyUsesAugments, Heads, Named;
    assert Heads([]) == [];
    if st.included && !TakesNoUses(parent) && st.group.Some? && st.group.value in g && st.group.value !in stack {
      var group := st.group.value;
      assert group in g.Keys - stack;
      ChildrenNamed(g, g[group], parent, stack + {group});
      AugmentsKeepRoots(g, st.augments, BuildChildren(g, g[group], parent, stack + {group}), stack + {group});
    }
  }

  lemma {:induction false} AugmentsKeepRoots(g: Groupings, augments: seq<UsesAugment>, before: Built,
                                             stack: set<GroupId>)
    ensures Heads(ApplyUsesAugments(g, augments, before, stack).nodes) == Heads(before.nodes)
    decreases |augments|
  {
    hide BuildAugmentChildren;
    if augments != [] {
      var after := ApplyUsesAugment(g, augments[0], before, stack);
      assert Heads(after.nodes) == Heads(before.nodes);
      AugmentsKeepRoots(g, augments[1..], after, stack);
    }
  }
}
