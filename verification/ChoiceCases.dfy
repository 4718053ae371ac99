/** Which choices of a built schema hold nothing but cases, and which keep bare shorthand nodes. */
module ChoiceCases {
  import opened Common
  import opened Expansion

  /** Every choice from n down holds only cases. */
  ghost predicate HoldsCases(n: Node) {
    forall c :: c in n.children ==> (n.kind.Choice? ==> c.kind.Case?) && HoldsCases(c)
  }

  ghost predicate AllHoldCases(nodes: seq<Node>) {
    forall n :: n in nodes ==> HoldsCases(n)
  }

  ghost predicate CasesOnly(nodes: seq<Node>) {
    forall n :: n in nodes ==> n.kind.Case?
  }

  // ---- The condition on statements

  /** No statement of a choice's body stands for a node that would need a shorthand case. */
  predicate NoShorthand(sts: seq<Stmt>) {
    forall st | st in sts :: !IsBare(st)
  }

  /** An included statement that the plain build turns into a node that is not a case. */
  predicate IsBare(st: Stmt) { st.included && st.NodeStmt? && st.kind !in {Case, Rpc, ModuleRoot} }

  /**
   Whether a statement built as a plain node leaves no choice with a bare child.  A choice
   statement built this way, at the top level of a module or directly in a choice, gets no
   shorthand cases, so it must have none.
   */
  ghost predicate NodeWrapped(g: Groupings, st: Stmt, stack: set<GroupId>)
    requires st.NodeStmt?
    decreases g.Keys - stack, Size(st), 1
  {
    (st.kind.Choice? ==> NoShorthand(st.body)) && ChildrenWrapped(g, st.body, st.kind, stack)
  }

  ghost predicate ChildrenWrapped(g: Groupings, sts: seq<Stmt>, parent: Kind, stack: set<GroupId>)
    decreases g.Keys - stack, SizeAll(sts), 5
  {
    sts != [] ==> ChildWrapped(g, sts[0], parent, stack) && ChildrenWrapped(g, sts[1..], parent, stack)
  }

  /** A statement below any other node; here a choice gets its shorthand cases. */
  ghost predicate ChildWrapped(g: Groupings, st: Stmt, parent: Kind, stack: set<GroupId>)
    decreases g.Keys - stack, Size(st), 4
  {
    if !st.included then true
    else if st.UsesStmt? then AllowsUses(parent) ==> UsesWrapped(g, st, parent, stack)
    else if st.kind.Choice? then CasesWrapped(g, st.body, stack)
    else st.kind.Rpc? || st.kind.ModuleRoot? || NodeWrapped(g, st, stack)
  }

  /** The statements of a choice that gets shorthand cases: each is built as a plain node, choices too. */
  ghost predicate CasesWrapped(g: Groupings, sts: seq<Stmt>, stack: set<GroupId>)
    decreases g.Keys - stack, SizeAll(sts), 5
  {
    sts != [] ==> CaseWrapped(g, sts[0], stack) && CasesWrapped(g, sts[1..], stack)
  }

  ghost predicate CaseWrapped(g: Groupings, st: Stmt, stack: set<GroupId>)
    decreases g.Keys - stack, Size(st), 2
  {
    st.included && st.NodeStmt? && IsSchemaChild(st.kind) ==> NodeWrapped(g, st, stack)
  }

  /** The statements of a grouping and of the augments that find their target. */
  ghost predicate UsesWrapped(g: Groupings, st: Stmt, parent: Kind, stack: set<GroupId>)
    requires st.UsesStmt?
    decreases g.Keys - stack, Size(st), 1
  {
    st.group.Some? && st.group.value in g && st.group.value !in stack ==>
      var group := st.group.value;
      assert group in g.Keys - stack;
      && ChildrenWrapped(g, g[group], parent, stack + {group})
      && AugmentsWrapped(g, st.augments, BuildChildren(g, g[group], parent, stack + {group}), stack + {group})
  }

  ghost predicate AugmentsWrapped(g: Groupings, augments: seq<UsesAugment>, before: Built, stack: set<GroupId>)
    decreases g.Keys - stack, SizeAugments(augments), 0
  {
    augments != [] ==>
      var target := FindRelative(before.nodes, augments[0].path);
      && (augments[0].included && target.Some? ==> ChildrenWrapped(g, augments[0].body, target.value.kind, stack))
      && AugmentsWrapped(g, augments[1..], ApplyUsesAugment(g, augments[0], before, stack), stack)
  }

  /** The statements of a module; a choice at this level gets no shorthand cases. */
  ghost predicate TopWrapped(g: Groupings, sts: seq<Stmt>) {
    forall st :: st in sts ==> TopStatementWrapped(g, st)
  }

  ghost predicate TopStatementWrapped(g: Groupings, st: Stmt) {
    if !st.included then true
    else if st.UsesStmt? then UsesWrapped(g, st, ModuleRoot, {})
    else st.kind.Rpc? || IsSchemaChild(st.kind) ==> NodeWrapped(g, st, {})
  }

  // ---- Nodes put together

  lemma ConcatHolds(a: seq<Node>, b: seq<Node>)
    ensures AllHoldCases(a + b) <==> AllHoldCases(a) && AllHoldCases(b)
    ensures CasesOnly(a + b) <==> CasesOnly(a) && CasesOnly(b)
  {
    hide HoldsCases;
    assert forall n :: n in a + b <==> n in a || n in b;
  }

  lemma {:induction false} OneHolds(n: Node)
    ensures AllHoldCases([n]) <==> AllHoldCases(n.children) && (n.kind.Choice? ==> CasesOnly(n.children))
    ensures CasesOnly([n]) <==> n.kind.Case?
  {
    assert HoldsCases(n) <==> forall c :: c in n.children ==> (n.kind.Choice? ==> c.kind.Case?) && HoldsCases(c);
    assert n in [n];
  }

  lemma OperationIOHolds(kind: Kind, children: seq<Node>)
    ensures AllHoldCases(WithOperationIO(kind, children)) <==> AllHoldCases(children)
    ensures kind.Choice? ==> WithOperationIO(kind, children) == children
  {
    hide HoldsCases, AllHoldCases;
    var input, output := Node("input", Input, []), Node("output", Output, []);
    OneHolds(input);
    OneHolds(output);
    NoneHold();
    ConcatHolds([input], children);
    ConcatHolds(children, [output]);
    ConcatHolds([input] + children, [output]);
  }

  lemma NoneHold()
    ensures AllHoldCases([]) && CasesOnly([])
  {
  }

  lemma {:induction false} WrappedHold(nodes: seq<Node>)
    ensures AllHoldCases(WrapInCases(nodes)) <==> AllHoldCases(nodes)
    ensures CasesOnly(WrapInCases(nodes))
  {
    hide HoldsCases, AllHoldCases, CasesOnly;
    NoneHold();
    if nodes != [] {
      WrappedHold(nodes[1..]);
      var first := if nodes[0].kind.Case? then nodes[0] else Node(nodes[0].name, Case, [nodes[0]]);
      OneHolds(first);
      OneHolds(nodes[0]);
      ConcatHolds([first], WrapInCases(nodes[1..]));
      ConcatHolds([nodes[0]], nodes[1..]);
      assert [nodes[0]] + nodes[1..] == nodes;
    }
  }

  lemma UpdateHolds(nodes: seq<Node>, i: nat, n: Node)
    requires i < |nodes| && n.kind == nodes[i].kind
    ensures CasesOnly(nodes[i := n]) <==> CasesOnly(nodes)
    ensures AllHoldCases(nodes) <==>
            AllHoldCases(nodes[..i]) && AllHoldCases([nodes[i]]) && AllHoldCases(nodes[i + 1..])
    ensures AllHoldCases(nodes[i := n]) <==>
            AllHoldCases(nodes[..i]) && AllHoldCases([n]) && AllHoldCases(nodes[i + 1..])
  {
    hide HoldsCases, AllHoldCases, CasesOnly;
    assert nodes == nodes[..i] + [nodes[i]] + nodes[i + 1..];
    assert nodes[i := n] == nodes[..i] + [n] + nodes[i + 1..];
    ConcatHolds(nodes[..i], [nodes[i]]);
    ConcatHolds(nodes[..i] + [nodes[i]], nodes[i + 1..]);
    ConcatHolds(nodes[..i], [n]);
    ConcatHolds(nodes[..i] + [n], nodes[i + 1..]);
    OneHolds(n);
    OneHolds(nodes[i]);
  }

  /** Appending to a node found below, only cases if that node is a choice. */
  lemma {:induction false} AppendedHold(nodes: seq<Node>, path: seq<string>, added: seq<Node>)
    requires FindRelative(nodes, path).Some?
    requires FindRelative(nodes, path).value.kind.Choice? ==> CasesOnly(added)
    ensures AllHoldCases(AppendAt(nodes, path, added)) <==> AllHoldCases(nodes) && AllHoldCases(added)
    ensures CasesOnly(AppendAt(nodes, path, added)) <==> CasesOnly(nodes)
    decreases |path|
  {
    hide HoldsCases, AllHoldCases, CasesOnly;
    var i := FirstNamed(nodes, path[0]);
    var n := nodes[i];
    OneHolds(n);
    if |path| == 1 {
      var longer := n.(children := n.children + added);
      ConcatHolds(n.children, added);
      OneHolds(longer);
      UpdateHolds(nodes, i, longer);
    } else {
      AppendedHold(n.children, path[1..], added);
      var deeper := n.(children := AppendAt(n.children, path[1..], added));
      OneHolds(deeper);
      UpdateHolds(nodes, i, deeper);
    }
  }

  // ---- The plain build of a choice's body

  /** What a choice that gets no shorthand cases has below it are cases exactly if no statement is a shorthand. */
  lemma {:induction false} PlainChildrenAreCases(g: Groupings, sts: seq<Stmt>, stack: set<GroupId>)
    ensures CasesOnly(BuildChildren(g, sts, Choice, stack).nodes) <==> NoShorthand(sts)
  {
    hide BuildChild, CasesOnly;
    NoneHold();
    if sts != [] {
      PlainChildrenAreCases(g, sts[1..], stack);
      PlainChildIsCase(g, sts[0], stack);
      ConcatHolds(BuildChild(g, sts[0], Choice, stack).nodes, BuildChildren(g, sts[1..], Choice, stack).nodes);
      assert forall st :: st in sts <==> st == sts[0] || st in sts[1..];
    }
  }

  lemma PlainChildIsCase(g: Groupings, st: Stmt, stack: set<GroupId>)
    ensures CasesOnly(BuildChild(g, st, Choice, stack).nodes) <==> !IsBare(st)
  {
    hide BuildNode, BuildCases, CasesOnly;
    NoneHold();
    if st.included && st.NodeStmt? {
      PlainKind(g, st, stack);
      var node := BuildNode(g, st, stack).nodes[0];
      assert BuildNode(g, st, stack).nodes == [node];
      OneHolds(node);
      OneHolds(node.(children := BuildCases(g, st.body, stack).nodes));
    }
  }

  lemma {:induction false} BuiltCasesAreCases(g: Groupings, sts: seq<Stmt>, stack: set<GroupId>)
    ensures CasesOnly(BuildCases(g, sts, stack).nodes)
  {
    hide BuildNode;
    if sts != [] {
      BuiltCasesAreCases(g, sts[1..], stack);
      if sts[0].included && sts[0].NodeStmt? && sts[0].kind.Case? {
        PlainKind(g, sts[0], stack);
      }
    }
  }

  lemma PlainKind(g: Groupings, st: Stmt, stack: set<GroupId>)
    requires st.NodeStmt?
    ensures BuildNode(g, st, stack).nodes[0].kind == st.kind
  {
  }

  /** The choice node that a choice statement below any node but a choice gives holds only cases. */
  lemma ChoiceHoldsCases(g: Groupings, st: Stmt, parent: Kind, stack: set<GroupId>)
    requires st.NodeStmt? && st.kind.Choice? && st.included
    ensures |BuildChild(g, st, parent, stack).nodes| == 1
            && CasesOnly(BuildChild(g, st, parent, stack).nodes[0].children)
  {
    hide BuildCases;
    BuiltCasesAreCases(g, st.body, stack);
  }

  // ---- The condition is exact

  lemma {:induction false} NodeExact(g: Groupings, st: Stmt, stack: set<GroupId>)
    requires st.NodeStmt?
    ensures AllHoldCases(BuildNode(g, st, stack).nodes) <==> NodeWrapped(g, st, stack)
    decreases g.Keys - stack, Size(st), 1
  {
    hide BuildChildren, WithOperationIO, HoldsCases, AllHoldCases, CasesOnly, NoShorthand, ChildrenWrapped;
    var below := BuildChildren(g, st.body, st.kind, stack);
    ChildrenExact(g, st.body, st.kind, stack);
    OperationIOHolds(st.kind, below.nodes);
    if st.kind.Choice? {
      PlainChildrenAreCases(g, st.body, stack);
    }
    OneHolds(BuildNode(g, st, stack).nodes[0]);
  }

  lemma {:induction false} ChildrenExact(g: Groupings, sts: seq<Stmt>, parent: Kind, stack: set<GroupId>)
    ensures AllHoldCases(BuildChildren(g, sts, parent, stack).nodes) <==> ChildrenWrapped(g, sts, parent, stack)
    decreases g.Keys - stack, SizeAll(sts), 5
  {
    hide BuildChild, HoldsCases, AllHoldCases, CasesOnly, ChildWrapped;
    NoneHold();
    if sts != [] {
      ChildExact(g, sts[0], parent, stack);
      ChildrenExact(g, sts[1..], parent, stack);
      ConcatHolds(BuildChild(g, sts[0], parent, stack).nodes, BuildChildren(g, sts[1..], parent, stack).nodes);
    }
  }

  lemma {:induction false} ChildExact(g: Groupings, st: Stmt, parent: Kind, stack: set<GroupId>)
    ensures AllHoldCases(BuildChild(g, st, parent, stack).nodes) <==> ChildWrapped(g, st, parent, stack)
    decreases g.Keys - stack, Size(st), 4
  {
    hide BuildNode, BuildChoice, ExpandUses, HoldsCases, AllHoldCases, CasesOnly, NodeWrapped, CasesWrapped,
         UsesWrapped;
    NoneHold();
    if st.included {
      if st.UsesStmt? {
        if AllowsUses(parent) {
          UsesExact(g, st, parent, stack);
        }
      } else if st.kind.Choice? {
        ChoiceExact(g, st, stack);
      } else {
        NodeExact(g, st, stack);
      }
    }
  }

  lemma {:induction false} ChoiceExact(g: Groupings, st: Stmt, stack: set<GroupId>)
    requires st.NodeStmt? && st.kind.Choice?
    ensures AllHoldCases(BuildChoice(g, st, stack).nodes) <==> CasesWrapped(g, st.body, stack)
    decreases g.Keys - stack, Size(st), 3
  {
    hide BuildNode, BuildCases, HoldsCases, AllHoldCases, CasesOnly, CasesWrapped;
    PlainKind(g, st, stack);
    CasesExact(g, st.body, stack);
    BuiltCasesAreCases(g, st.body, stack);
    OneHolds(BuildChoice(g, st, stack).nodes[0]);
  }

  lemma {:induction false} CasesExact(g: Groupings, sts: seq<Stmt>, stack: set<GroupId>)
    ensures AllHoldCases(BuildCases(g, sts, stack).nodes) <==> CasesWrapped(g, sts, stack)
    decreases g.Keys - stack, SizeAll(sts), 5
  {
    hide BuildCase, HoldsCases, AllHoldCases, CasesOnly, CaseWrapped;
    NoneHold();
    if sts != [] {
      CaseExact(g, sts[0], stack);
      CasesExact(g, sts[1..], stack);
      ConcatHolds(BuildCase(g, sts[0], stack).nodes, BuildCases(g, sts[1..], stack).nodes);
    }
  }

  lemma {:induction false} CaseExact(g: Groupings, st: Stmt, stack: set<GroupId>)
    ensures AllHoldCases(BuildCase(g, st, stack).nodes) <==> CaseWrapped(g, st, stack)
    decreases g.Keys - stack, Size(st), 2
  {
    hide BuildNode, HoldsCases, AllHoldCases, CasesOnly, NodeWrapped;
    NoneHold();
    if st.included && st.NodeStmt? && IsSchemaChild(st.kind) {
      NodeExact(g, st, stack);
      OneHolds(Node(st.name, Case, BuildNode(g, st, stack).nodes));
    }
  }

  lemma {:induction false} UsesExact(g: Groupings, st: Stmt, parent: Kind, stack: set<GroupId>)
    requires st.UsesStmt?
    ensures AllHoldCases(ExpandUses(g, st, parent, stack).nodes) <==> UsesWrapped(g, st, parent, stack)
    decreases g.Keys - stack, Size(st), 1
  {
    hide BuildChildren, ApplyUsesAugments, HoldsCases, AllHoldCases, CasesOnly, ChildrenWrapped, AugmentsWrapped;
    NoneHold();
    if st.group.Some? && st.group.value in g && st.group.value !in stack {
      var group := st.group.value;
      assert group in g.Keys - stack;
      ChildrenExact(g, g[group], parent, stack + {group});
      AugmentsExact(g, st.augments, BuildChildren(g, g[group], parent, stack + {group}), stack + {group});
    }
  }

  lemma {:induction false} AugmentsExact(g: Groupings, augments: seq<UsesAugment>, before: Built, stack: set<GroupId>)
    ensures AllHoldCases(ApplyUsesAugments(g, augments, before, stack).nodes) <==>
              AllHoldCases(before.nodes) && AugmentsWrapped(g, augments, before, stack)
    decreases g.Keys - stack, SizeAugments(augments), 0
  {
    hide BuildChildren, FindRelative, AppendAt, HoldsCases, AllHoldCases, CasesOnly, ChildrenWrapped, WrapInCases;
    if augments != [] {
      var aug := augments[0];
      if aug.included && FindRelative(before.nodes, aug.path).Some? {
        var target := FindRelative(before.nodes, aug.path).value;
        ChildrenExact(g, aug.body, target.kind, stack);
        WrappedHold(BuildChildren(g, aug.body, target.kind, stack).nodes);
        AppendedHold(before.nodes, aug.path, BuildAugmentChildren(g, aug.body, target.kind, stack).nodes);
      }
      AugmentsExact(g, augments[1..], ApplyUsesAugment(g, aug, before, stack), stack);
    }
  }

  /**
   Every choice of a module holds only cases exactly when no choice statement that is built
   as a plain node, at the top level or directly in a choice, has a shorthand child.
   */
  lemma {:induction false} ModuleHoldsCases(g: Groupings, sts: seq<Stmt>)
    ensures AllHoldCases(BuildTop(g, sts).nodes) <==> TopWrapped(g, sts)
  {
    hide BuildTopStatement, HoldsCases, AllHoldCases, CasesOnly, TopStatementWrapped;
    NoneHold();
    if sts != [] {
      ModuleHoldsCases(g, sts[1..]);
      TopStatementExact(g, sts[0]);
      ConcatHolds(BuildTopStatement(g, sts[0]).nodes, BuildTop(g, sts[1..]).nodes);
      assert forall st :: st in sts <==> st == sts[0] || st in sts[1..];
    }
  }

  lemma TopStatementExact(g: Groupings, st: Stmt)
    ensures AllHoldCases(BuildTopStatement(g, st).nodes) <==> TopStatementWrapped(g, st)
  {
    hide BuildNode, ExpandUses, HoldsCases, AllHoldCases, CasesOnly, NodeWrapped, UsesWrapped;
    NoneHold();
    if st.included {
      if st.UsesStmt? {
        UsesExact(g, st, ModuleRoot, {});
      } else {
        NodeExact(g, st, {});
      }
    }
  }

  lemma LoneLeafWrapped(g: Groupings, leaf: Stmt)
    requires leaf.NodeStmt? && leaf.kind.Leaf? && leaf.body == []
    ensures NodeWrapped(g, leaf, {}) && CasesWrapped(g, [leaf], {})
  {
    assert ChildrenWrapped(g, [], leaf.kind, {});
    assert NodeWrapped(g, leaf, {});
    assert CaseWrapped(g, leaf, {});
    assert [leaf][1..] == [] && CasesWrapped(g, [], {});
  }

  /** Instances: a choice with a shorthand leaf fails at the top level, and directly in another choice. */
  lemma BareChoices(g: Groupings)
    ensures var choice := NodeStmt(Choice, "c", true, [NodeStmt(Leaf, "a", true, [])]);
            && !AllHoldCases(BuildTop(g, [choice]).nodes)
            && !AllHoldCases(BuildTop(g,
                                      [NodeStmt(Container, "top", true,
                                                [NodeStmt(Choice, "d", true, [choice])])]).nodes)
            && AllHoldCases(BuildTop(g, [NodeStmt(Container, "top", true, [choice])]).nodes)
  {
    hide BuildTop, HoldsCases, AllHoldCases;
    var leaf := NodeStmt(Leaf, "a", true, []);
    var choice := NodeStmt(Choice, "c", true, [leaf]);
    var outer := NodeStmt(Choice, "d", true, [choice]);
    var deep, good := NodeStmt(Container, "top", true, [outer]), NodeStmt(Container, "top", true, [choice]);
    ModuleHoldsCases(g, [choice]);
    ModuleHoldsCases(g, [deep]);
    ModuleHoldsCases(g, [good]);
    assert leaf in [leaf] && IsBare(leaf);
    assert !NodeWrapped(g, choice, {});
    assert !CaseWrapped(g, choice, {}) && !CasesWrapped(g, [choice], {});
    assert !ChildWrapped(g, outer, Container, {}) && !ChildrenWrapped(g, [outer], Container, {});
    assert choice in [choice] && deep in [deep];
    assert [leaf][1..] == [] && [choice][1..] == [];
    LoneLeafWrapped(g, leaf);
    assert ChildWrapped(g, choice, Container, {}) && ChildrenWrapped(g, [choice], Container, {});
    assert NodeWrapped(g, good, {});
  }
}
