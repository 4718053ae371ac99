/** What an expansion charges, counted on the statements. */
module ExpansionCharges {
  import opened Common
  import opened Expansion
  import opened ExpansionViews

  // ---- Counting on statements

  /** Each included statement that gives a node counts once, the body of a choice twice. */
  ghost function Charge(g: Groupings, sts: seq<Stmt>, parent: Kind, stack: set<GroupId>): nat
    decreases g.Keys - stack, SizeAll(sts), 2
  {
    if sts == [] then 0
    else
      (if sts[0].included then StatementCharge(g, sts[0], parent, stack) else 0) + Charge(g, sts[1..], parent, stack)
  }

  ghost function StatementCharge(g: Groupings, st: Stmt, parent: Kind, stack: set<GroupId>): nat
    decreases g.Keys - stack, Size(st), 1
  {
    match st
    case NodeStmt(kind, _, _, body) =>
      if kind in {Rpc, ModuleRoot} then 0
      else NodeCharge(g, st, stack) + if kind.Choice? then CasesCharge(g, body, stack) else 0
    case UsesStmt(group, _, augments) =>
      if TakesNoUses(parent) then 0 else UsesCharge(g, group, augments, parent, stack)
  }

  /** A node, what is below it, and the input and output nodes its statement lacks. */
  ghost function NodeCharge(g: Groupings, st: Stmt, stack: set<GroupId>): nat
    requires st.NodeStmt?
    decreases g.Keys - stack, Size(st), 0
  {
    1 + Charge(g, st.body, st.kind, stack) +
    if st.kind in {Rpc, Action} then
      (if NamedIn(Named(g, st.body, st.kind, stack), "input") then 0 else 1)
      + if NamedIn(Named(g, st.body, st.kind, stack), "output") then 0 else 1
    else 0
  }

  /** The second time, for its cases: the cases put around shorthand nodes are free. */
  ghost function CasesCharge(g: Groupings, sts: seq<Stmt>, stack: set<GroupId>): nat
    decreases g.Keys - stack, SizeAll(sts), 2
  {
    if sts == [] then 0
    else
      CaseCharge(g, sts[0], stack) + CasesCharge(g, sts[1..], stack)
  }

  ghost function CaseCharge(g: Groupings, st: Stmt, stack: set<GroupId>): nat
    decreases g.Keys - stack, Size(st), 1
  {
    if st.included && st.NodeStmt? && !NoChildHere(st.kind) then NodeCharge(g, st, stack) else 0
  }

  ghost function UsesCharge(g: Groupings, group: Option<GroupId>, augments: seq<UsesAugment>, parent: Kind,
                            stack: set<GroupId>): nat
    decreases g.Keys - stack, SizeAugments(augments), 2
  {
    if group.None? || group.value !in g || group.value in stack then 0
    else
      assert group.value in g.Keys - stack;
      var inside := stack + {group.value};
      Charge(g, g[group.value], parent, inside)
      + AugmentsCharge(g, augments, ChildrenView(g, g[group.value], parent, inside), inside)
  }

  /** An augment that finds its target counts its nodes, and below a choice each that needs a case once more. */
  ghost function AugmentsCharge(g: Groupings, augments: seq<UsesAugment>, v: View, stack: set<GroupId>): nat
    decreases g.Keys - stack, SizeAugments(augments), 0
  {
    if augments == [] then 0
    else
      var aug := augments[0];
      (match TargetKind(v, aug.path)
       case None => 0
       case Some(kind) =>
         if !aug.included then 0
         else AugmentCharge(g, aug.body, kind, stack))
      + AugmentsCharge(g, augments[1..], AugmentView(g, aug, v, stack), stack)
  }

  ghost function AugmentCharge(g: Groupings, sts: seq<Stmt>, target: Kind, stack: set<GroupId>): nat
    decreases g.Keys - stack, SizeAll(sts), 3
  {
    Charge(g, sts, target, stack) + if target.Choice? then Caseless(Named(g, sts, target, stack)) else 0
  }

  ghost function Caseless(heads: seq<Head>): nat {
    if heads == [] then 0 else (if heads[0].kind.Case? then 0 else 1) + Caseless(heads[1..])
  }

  // ---- The charges are that count

  lemma {:induction false} CaselessHeads(nodes: seq<Node>)
    ensures Caseless(Heads(nodes)) == Unwrapped(nodes)
  {
    if nodes != [] {
      assert Heads(nodes)[1..] == Heads(nodes[1..]);
      CaselessHeads(nodes[1..]);
    }
  }

  lemma HasNamed(nodes: seq<Node>, name: string)
    ensures HasChild(nodes, name) <==> NamedIn(Heads(nodes), name)
  {
    if HasChild(nodes, name) {
      var c :| c in nodes && c.name == name;
      var i :| 0 <= i < |nodes| && nodes[i] == c;
      assert Heads(nodes)[i] in Heads(nodes);
    }
    if NamedIn(Heads(nodes), name) {
      var h :| h in Heads(nodes) && h.name == name;
      var i :| 0 <= i < |nodes| && Heads(nodes)[i] == h;
      assert nodes[i] in nodes;
    }
  }

  lemma {:induction false} ChildrenCharge(g: Groupings, sts: seq<Stmt>, parent: Kind, stack: set<GroupId>)
    ensures BuildChildren(g, sts, parent, stack).charges == Charge(g, sts, parent, stack)
    decreases g.Keys - stack, SizeAll(sts), 2
  {
    hide BuildChild, StatementCharge;
    if sts != [] {
      ChargeOfStatement(g, sts[0], parent, stack);
      ChildrenCharge(g, sts[1..], parent, stack);
    }
  }

  lemma {:induction false} ChargeOfStatement(g: Groupings, st: Stmt, parent: Kind, stack: set<GroupId>)
    ensures BuildChild(g, st, parent, stack).charges == if st.included then StatementCharge(g, st, parent, stack) else 0
    decreases g.Keys - stack, Size(st), 1
  {
    hide BuildNode, NodeCharge, CasesCharge, BuildCases, UsesCharge, ExpandUses, BuildChoice;
    if st.NodeStmt? {
      ChargeOfNode(g, st, stack);
      if st.kind.Choice? {
        ChargeOfCases(g, st.body, stack);
        ChoiceBuiltTwice(g, st, stack);
      }
    } else {
      ChargeOfUses(g, st, parent, stack);
    }
  }

  lemma ChoiceBuiltTwice(g: Groupings, st: Stmt, stack: set<GroupId>)
    requires st.NodeStmt?
    ensures BuildChoice(g, st, stack).charges == BuildNode(g, st, stack).charges + BuildCases(g, st.body, stack).charges
  {
  }

  lemma {:induction false} ChargeOfNode(g: Groupings, st: Stmt, stack: set<GroupId>)
    requires st.NodeStmt?
    ensures BuildNode(g, st, stack).charges == NodeCharge(g, st, stack)
    decreases g.Keys - stack, Size(st), 0
  {
    hide BuildChildren, HasChild, NamedIn;
    var below := BuildChildren(g, st.body, st.kind, stack).nodes;
    ChildrenCharge(g, st.body, st.kind, stack);
    ChildrenNamed(g, st.body, st.kind, stack);
    HasNamed(below, "input");
    HasNamed(below, "output");
    OutputAfterInput(below);
  }

  lemma OutputAfterInput(below: seq<Node>)
    ensures HasChild([Node("input", Input, [])] + below, "output") == HasChild(below, "output")
  {
    var input := Node("input", Input, []);
    assert forall c :: c in [input] + below <==> c == input || c in below;
  }

  lemma {:induction false} ChargeOfCases(g: Groupings, sts: seq<Stmt>, stack: set<GroupId>)
    ensures BuildCases(g, sts, stack).charges == CasesCharge(g, sts, stack)
    decreases g.Keys - stack, SizeAll(sts), 2
  {
    hide BuildCase, CaseCharge;
    if sts != [] {
      ChargeOfCase(g, sts[0], stack);
      ChargeOfCases(g, sts[1..], stack);
    }
  }

  lemma {:induction false} ChargeOfCase(g: Groupings, st: Stmt, stack: set<GroupId>)
    ensures BuildCase(g, st, stack).charges == CaseCharge(g, st, stack)
    decreases g.Keys - stack, Size(st), 1
  {
    hide BuildNode, NodeCharge;
    if st.NodeStmt? {
      ChargeOfNode(g, st, stack);
    }
  }

  lemma {:induction false} ChargeOfUses(g: Groupings, st: Stmt, parent: Kind, stack: set<GroupId>)
    requires st.UsesStmt?
    ensures ExpandUses(g, st, parent, stack).charges == UsesCharge(g, st.group, st.augments, parent, stack)
    decreases g.Keys - stack, SizeAugments(st.augments), 2
  {
    hide BuildChildren, ApplyUsesAugments, ChildrenView, Charge, AugmentsCharge;
    if st.group.Some? && st.group.value in g && st.group.value !in stack {
      var group := st.group.value;
      assert group in g.Keys - stack;
      ChildrenCharge(g, g[group], parent, stack + {group});
      ChildrenShown(g, g[group], parent, stack + {group});
      ChargeOfAugments(g, st.augments, BuildChildren(g, g[group], parent, stack + {group}),
                       ChildrenView(g, g[group], parent, stack + {group}), stack + {group});
    }
  }

  lemma {:induction false} ChargeOfAugments(g: Groupings, augments: seq<UsesAugment>, before: Built, v: View,
                                            stack: set<GroupId>)
    requires Shows(before.nodes, v)
    ensures ApplyUsesAugments(g, augments, before, stack).charges ==
            before.charges + AugmentsCharge(g, augments, v, stack)
    decreases g.Keys - stack, SizeAugments(augments), 0
  {
    hide Shows, TargetKind, BuildAugmentChildren, AugmentView, FindRelative, AppendAt, AugmentCharge;
    if augments != [] {
      var aug := augments[0];
      TargetShown(before.nodes, v, aug.path);
      AugmentShown(g, aug, before, v, stack);
      if TargetKind(v, aug.path).Some? {
        ChargeOfAugment(g, aug.body, TargetKind(v, aug.path).value, stack);
      }
      ChargeOfAugments(g, augments[1..], ApplyUsesAugment(g, aug, before, stack), AugmentView(g, aug, v, stack), stack);
    }
  }

  /** An augment is charged its nodes, and the cases it needs below a choice. */
  lemma {:induction false} ChargeOfAugment(g: Groupings, sts: seq<Stmt>, target: Kind, stack: set<GroupId>)
    ensures BuildAugmentChildren(g, sts, target, stack).charges == AugmentCharge(g, sts, target, stack)
    decreases g.Keys - stack, SizeAll(sts), 3
  {
    hide BuildChildren, Charge, Named, Caseless, Heads;
    ChildrenCharge(g, sts, target, stack);
    ChildrenNamed(g, sts, target, stack);
    CaselessHeads(BuildChildren(g, sts, target, stack).nodes);
  }

  ghost function TopCharge(g: Groupings, sts: seq<Stmt>): nat {
    if sts == [] then 0
    else (if sts[0].included then TopStatementCharge(g, sts[0]) else 0) + TopCharge(g, sts[1..])
  }

  ghost function TopStatementCharge(g: Groupings, st: Stmt): nat {
    match st
    case NodeStmt(kind, _, _, _) => if kind.Rpc? || !NoChildHere(kind) then NodeCharge(g, st, {}) else 0
    case UsesStmt(group, _, augments) => UsesCharge(g, group, augments, ModuleRoot, {})
  }

  /** A module is charged exactly what its statements count. */
  lemma {:induction false} ModuleCharge(g: Groupings, sts: seq<Stmt>)
    ensures BuildTop(g, sts).charges == TopCharge(g, sts)
  {
    hide BuildTopStatement, TopStatementCharge;
    if sts != [] {
      ChargeOfTop(g, sts[0]);
      ModuleCharge(g, sts[1..]);
    }
  }

  lemma ChargeOfTop(g: Groupings, st: Stmt)
    ensures BuildTopStatement(g, st).charges == if st.included then TopStatementCharge(g, st) else 0
  {
    hide BuildNode, NodeCharge, UsesCharge, ExpandUses;
    if st.NodeStmt? {
      ChargeOfNode(g, st, {});
    } else {
      ChargeOfUses(g, st, ModuleRoot, {});
    }
  }

  // ---- Without choices

  /** No choice anywhere in the statements. */
  predicate NoChoice(sts: seq<Stmt>) { forall st | st in sts :: NoChoiceIn(st) }

  predicate NoChoiceIn(st: Stmt) {
    match st
    case NodeStmt(kind, _, _, body) => !kind.Choice? && NoChoice(body)
    case UsesStmt(_, _, augments) => forall a | a in augments :: NoChoice(a.body)
  }

  ghost predicate NoChoices(g: Groupings) { forall group :: group in g ==> NoChoice(g[group]) }

  /** Every node from n down is not a choice. */
  ghost predicate Plain(n: Node) { !n.kind.Choice? && forall c :: c in n.children ==> Plain(c) }

  ghost predicate AllPlain(nodes: seq<Node>) { forall n :: n in nodes ==> Plain(n) }

  lemma PlainConcat(a: seq<Node>, b: seq<Node>)
    requires AllPlain(a) && AllPlain(b)
    ensures AllPlain(a + b)
  {
  }

  lemma PlainOperationIO(kind: Kind, children: seq<Node>)
    requires AllPlain(children)
    ensures AllPlain(WithOperationIO(kind, children))
  {
    var input, output := Node("input", Input, []), Node("output", Output, []);
    assert Plain(input) && Plain(output);
  }

  lemma {:induction false} PlainAppended(nodes: seq<Node>, path: seq<string>, added: seq<Node>)
    requires FindRelative(nodes, path).Some? && AllPlain(nodes) && AllPlain(added)
    ensures AllPlain(AppendAt(nodes, path, added)) && !FindRelative(nodes, path).value.kind.Choice?
    decreases |path|
  {
    var i := FirstNamed(nodes, path[0]);
    var n := nodes[i];
    assert n in nodes && AllPlain(n.children);
    if |path| == 1 {
      PlainConcat(n.children, added);
    } else {
      PlainAppended(n.children, path[1..], added);
    }
  }

  lemma {:induction false} ChildrenCharged(g: Groupings, sts: seq<Stmt>, parent: Kind, stack: set<GroupId>)
    requires NoChoices(g) && NoChoice(sts)
    ensures var r := BuildChildren(g, sts, parent, stack); r.charges == CountAll(r.nodes) && AllPlain(r.nodes)
    decreases g.Keys - stack, SizeAll(sts), 2
  {
    hide BuildChild, NoChoiceIn;
    if sts != [] {
      assert forall st :: st in sts[1..] ==> st in sts;
      ChildCharged(g, sts[0], parent, stack);
      ChildrenCharged(g, sts[1..], parent, stack);
      CountConcat(BuildChild(g, sts[0], parent, stack).nodes, BuildChildren(g, sts[1..], parent, stack).nodes);
    }
  }

  lemma {:induction false} ChildCharged(g: Groupings, st: Stmt, parent: Kind, stack: set<GroupId>)
    requires NoChoices(g) && NoChoiceIn(st)
    ensures var r := BuildChild(g, st, parent, stack); r.charges == CountAll(r.nodes) && AllPlain(r.nodes)
    decreases g.Keys - stack, Size(st), 1
  {
    hide BuildNode, ApplyUsesAugments, BuildChildren, NoChoice, Plain;
    if st.included {
      if st.NodeStmt? {
        NodeCharged(g, st, stack);
      } else if AllowsUses(parent) && st.group.Some? && st.group.value in g && st.group.value !in stack {
        var group := st.group.value;
        assert group in g.Keys - stack;
        ChildrenCharged(g, g[group], parent, stack + {group});
        AugmentsCharged(g, st.augments, BuildChildren(g, g[group], parent, stack + {group}), stack + {group});
      }
    }
  }

  lemma {:induction false} NodeCharged(g: Groupings, st: Stmt, stack: set<GroupId>)
    requires NoChoices(g) && NoChoiceIn(st) && st.NodeStmt?
    ensures var r := BuildNode(g, st, stack); r.charges == CountAll(r.nodes) && AllPlain(r.nodes)
    decreases g.Keys - stack, Size(st), 0
  {
    hide WithOperationIO, BuildChildren, NoChoice;
    ChildrenCharged(g, st.body, st.kind, stack);
    var below := BuildChildren(g, st.body, st.kind, stack).nodes;
    CountOperationIO(st.kind, below);
    PlainOperationIO(st.kind, below);
    CountOne(BuildNode(g, st, stack).nodes[0]);
  }

  lemma {:induction false} AugmentsCharged(g: Groupings, augments: seq<UsesAugment>, before: Built, stack: set<GroupId>)
    requires NoChoices(g) && forall a :: a in augments ==> NoChoice(a.body)
    requires before.charges == CountAll(before.nodes) && AllPlain(before.nodes)
    ensures var r := ApplyUsesAugments(g, augments, before, stack);
            r.charges == CountAll(r.nodes) && AllPlain(r.nodes)
    decreases g.Keys - stack, SizeAugments(augments), 0
  {
    hide NoChoice, BuildChildren, FindRelative, AppendAt, AllPlain, CountAll;
    if augments != [] {
      var aug := augments[0];
      if aug.included && FindRelative(before.nodes, aug.path).Some? {
        var kind := FindRelative(before.nodes, aug.path).value.kind;
        ChildrenCharged(g, aug.body, kind, stack);
        var added := BuildChildren(g, aug.body, kind, stack).nodes;
        PlainAppended(before.nodes, aug.path, added);
        CountAppended(before.nodes, aug.path, added);
        assert BuildAugmentChildren(g, aug.body, kind, stack) == BuildChildren(g, aug.body, kind, stack);
      }
      AugmentsCharged(g, augments[1..], ApplyUsesAugment(g, aug, before, stack), stack);
    }
  }

  /** Without choices a module is charged exactly the nodes it retains. */
  lemma {:induction false} ModuleCharged(g: Groupings, sts: seq<Stmt>)
    requires NoChoices(g) && NoChoice(sts)
    ensures var r := BuildTop(g, sts); r.charges == CountAll(r.nodes)
  {
    hide BuildTopStatement, NoChoiceIn, NoChoices;
    if sts != [] {
      assert forall s :: s in sts[1..] ==> s in sts;
      TopCharged(g, sts[0]);
      ModuleCharged(g, sts[1..]);
      CountConcat(BuildTopStatement(g, sts[0]).nodes, BuildTop(g, sts[1..]).nodes);
    }
  }

  lemma TopCharged(g: Groupings, st: Stmt)
    requires NoChoices(g) && NoChoiceIn(st)
    ensures var r := BuildTopStatement(g, st); r.charges == CountAll(r.nodes)
  {
    hide BuildNode, ApplyUsesAugments, BuildChildren, NoChoiceIn, AllPlain, NoChoices;
    if st.UsesStmt? {
      SameChoices(st);
      ChildCharged(g, UsesStmt(st.group, true, st.augments), ModuleRoot, {});
    } else {
      NodeCharged(g, st, {});
    }
  }

  lemma SameChoices(st: Stmt)
    requires NoChoiceIn(st) && st.UsesStmt?
    ensures NoChoiceIn(UsesStmt(st.group, true, st.augments))
  {
  }
}
