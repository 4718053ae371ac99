/**
 Building schema nodes from statements, expanding groupings as they are used, without
 any limit: the nodes built and the number of nodes charged for them.
 */
module Expansion {
  import opened Common

  type GroupId = nat

  datatype Kind =
    | ModuleRoot | Container | List | Leaf | LeafList | AnyData | AnyXml
    | Choice | Case | Rpc | Action | Input | Output | Notification

  /** included is false when the enabled features exclude the statement. */
  datatype Stmt =
    | NodeStmt(kind: Kind, name: string, included: bool, body: seq<Stmt>)
    | UsesStmt(group: Option<GroupId>, included: bool, augments: seq<UsesAugment>)

  datatype UsesAugment = UsesAugment(path: seq<string>, included: bool, body: seq<Stmt>)

  /** The body of every grouping; uses statements name groupings by what they resolve to. */
  type Groupings = map<GroupId, seq<Stmt>>

  datatype Node = Node(name: string, kind: Kind, children: seq<Node>)

  /** What a build produces: nodes, charges against the budget, and whether it recorded no error. */
  datatype Built = Built(nodes: seq<Node>, charges: nat, ok: bool)

  predicate AllowsUses(kind: Kind) {
    kind in {ModuleRoot, Container, List, Case, Input, Output, Notification}
  }

  function Size(st: Stmt): (n: nat)
    ensures n > 0
  {
    match st
    case NodeStmt(_, _, _, body) => 1 + SizeAll(body)
    case UsesStmt(_, _, augments) => 1 + SizeAugments(augments)
  }

  function SizeAll(sts: seq<Stmt>): nat {
    if sts == [] then 0 else Size(sts[0]) + SizeAll(sts[1..])
  }

  function SizeAugments(augments: seq<UsesAugment>): nat {
    if augments == [] then 0 else 1 + SizeAll(augments[0].body) + SizeAugments(augments[1..])
  }

  function Then(a: Built, b: Built): Built {
    Built(a.nodes + b.nodes, a.charges + b.charges, a.ok && b.ok)
  }

  const NOTHING := Built([], 0, true)
  const FAILURE := Built([], 0, false)

  /** One node and everything below it, its choices' shorthand aside. */
  function BuildNode(g: Groupings, st: Stmt, stack: set<GroupId>): (r: Built)
    requires st.NodeStmt?
    ensures |r.nodes| == 1 && r.charges > 0
    decreases g.Keys - stack, Size(st), 1
  {
    var below := BuildChildren(g, st.body, st.kind, stack);
    var children := WithOperationIO(st.kind, below.nodes);
    Built([Node(st.name, st.kind, children)], 1 + below.charges + (|children| - |below.nodes|), below.ok)
  }

  predicate HasChild(children: seq<Node>, name: string) { exists c | c in children :: c.name == name }

  /** Operations always have input and output nodes; an absent one is added and charged. */
  function WithOperationIO(kind: Kind, children: seq<Node>): (r: seq<Node>)
    ensures |r| >= |children|
  {
    if !kind.Rpc? && !kind.Action? then children
    else
      var withInput := if HasChild(children, "input") then children else [Node("input", Input, [])] + children;
      if HasChild(withInput, "output") then withInput else withInput + [Node("output", Output, [])]
  }

  function BuildChildren(g: Groupings, sts: seq<Stmt>, parent: Kind, stack: set<GroupId>): (r: Built)
    decreases g.Keys - stack, SizeAll(sts), 5
  {
    if sts == [] then NOTHING
    else Then(BuildChild(g, sts[0], parent, stack), BuildChildren(g, sts[1..], parent, stack))
  }

  /** What one statement below parent contributes. */
  function BuildChild(g: Groupings, st: Stmt, parent: Kind, stack: set<GroupId>): (r: Built)
    decreases g.Keys - stack, Size(st), 4
  {
    if !st.included then NOTHING
    else if st.UsesStmt? then
      if AllowsUses(parent) then ExpandUses(g, st, parent, stack) else FAILURE
    else if st.kind.Choice? then BuildChoice(g, st, stack)
    else if st.kind.Rpc? || st.kind.ModuleRoot? then FAILURE
    else BuildNode(g, st, stack)
  }

  /** A choice: its node is built like any other, and then its children are built again, with shorthand cases. */
  function BuildChoice(g: Groupings, st: Stmt, stack: set<GroupId>): (r: Built)
    requires st.NodeStmt?
    ensures |r.nodes| == 1 && r.charges > 0
    decreases g.Keys - stack, Size(st), 3
  {
    var node := BuildNode(g, st, stack);
    var cases := BuildCases(g, st.body, stack);
    Built([node.nodes[0].(children := cases.nodes)], node.charges + cases.charges, node.ok && cases.ok)
  }

  predicate IsSchemaChild(kind: Kind) {
    kind in {Container, Leaf, LeafList, List, Choice, Case, AnyData, AnyXml, Action, Notification}
  }

  function BuildCases(g: Groupings, sts: seq<Stmt>, stack: set<GroupId>): (r: Built)
    decreases g.Keys - stack, SizeAll(sts), 5
  {
    if sts == [] then NOTHING
    else Then(BuildCase(g, sts[0], stack), BuildCases(g, sts[1..], stack))
  }

  /** What one statement below a choice contributes; a shorthand case is not charged. */
  function BuildCase(g: Groupings, st: Stmt, stack: set<GroupId>): (r: Built)
    decreases g.Keys - stack, Size(st), 2
  {
    if !st.included then NOTHING
    else if st.UsesStmt? then FAILURE
    else if st.kind.Case? then BuildNode(g, st, stack)
    else if IsSchemaChild(st.kind) then
      var child := BuildNode(g, st, stack);
      child.(nodes := [Node(st.name, Case, child.nodes)])
    else NOTHING
  }

  /** The nodes of a grouping, unless it is already being expanded, with the uses' own augments. */
  function ExpandUses(g: Groupings, st: Stmt, parent: Kind, stack: set<GroupId>): (r: Built)
    requires st.UsesStmt?
    decreases g.Keys - stack, Size(st), 1
  {
    if st.group.None? || st.group.value !in g || st.group.value in stack then FAILURE
    else
      var group := st.group.value;
      assert group in g.Keys - stack;
      ApplyUsesAugments(g, st.augments, BuildChildren(g, g[group], parent, stack + {group}), stack + {group})
  }

  function ApplyUsesAugments(g: Groupings, augments: seq<UsesAugment>, before: Built, stack: set<GroupId>): (r: Built)
    decreases g.Keys - stack, SizeAugments(augments), 0
  {
    if augments == [] then before
    else ApplyUsesAugments(g, augments[1..], ApplyUsesAugment(g, augments[0], before, stack), stack)
  }

  function ApplyUsesAugment(g: Groupings, aug: UsesAugment, before: Built, stack: set<GroupId>): (r: Built)
    decreases g.Keys - stack, SizeAll(aug.body), 7
  {
    if !aug.included then before
    else match FindRelative(before.nodes, aug.path)
      case None => before.(ok := false)
      case Some(target) =>
        var added := BuildAugmentChildren(g, aug.body, target.kind, stack);
        Built(AppendAt(before.nodes, aug.path, added.nodes), before.charges + added.charges, before.ok && added.ok)
  }

  /** An augment's nodes; under a choice each that is not a case gets a shorthand case, and this one is charged. */
  function BuildAugmentChildren(g: Groupings, sts: seq<Stmt>, target: Kind, stack: set<GroupId>): (r: Built)
    decreases g.Keys - stack, SizeAll(sts), 6
  {
    var built := BuildChildren(g, sts, target, stack);
    if target.Choice? then Built(WrapInCases(built.nodes), built.charges + Unwrapped(built.nodes), built.ok) else built
  }

  function WrapInCases(nodes: seq<Node>): (r: seq<Node>) {
    if nodes == [] then []
    else [if nodes[0].kind.Case? then nodes[0] else Node(nodes[0].name, Case, [nodes[0]])] + WrapInCases(nodes[1..])
  }

  function Unwrapped(nodes: seq<Node>): nat {
    if nodes == [] then 0 else (if nodes[0].kind.Case? then 0 else 1) + Unwrapped(nodes[1..])
  }

  /** The index of the first node with a name, or the number of nodes. */
  function FirstNamed(nodes: seq<Node>, name: string): (i: nat)
    ensures i <= |nodes| && (i < |nodes| ==> nodes[i].name == name)
    ensures forall j :: 0 <= j < i ==> nodes[j].name != name
  {
    if nodes == [] || nodes[0].name == name then 0 else 1 + FirstNamed(nodes[1..], name)
  }

  function FindRelative(nodes: seq<Node>, path: seq<string>): Option<Node> {
    if path == [] then None
    else
      var i := FirstNamed(nodes, path[0]);
      if i == |nodes| then None
      else if |path| == 1 then Some(nodes[i])
      else FindRelative(nodes[i].children, path[1..])
  }

  function AppendAt(nodes: seq<Node>, path: seq<string>, added: seq<Node>): seq<Node>
    requires FindRelative(nodes, path).Some?
  {
    var i := FirstNamed(nodes, path[0]);
    var n := nodes[i];
    nodes[i := n.(children := if |path| == 1 then n.children + added else AppendAt(n.children, path[1..], added))]
  }

  /** A module's own statements.  A choice at this level is built as a plain node. */
  function BuildTop(g: Groupings, sts: seq<Stmt>): (r: Built) {
    if sts == [] then NOTHING else Then(BuildTopStatement(g, sts[0]), BuildTop(g, sts[1..]))
  }

  function BuildTopStatement(g: Groupings, st: Stmt): (r: Built) {
    if !st.included then NOTHING
    else if st.UsesStmt? then ExpandUses(g, st, ModuleRoot, {})
    else if st.kind.Rpc? || IsSchemaChild(st.kind) then BuildNode(g, st, {})
    else NOTHING
  }

  // ---- Retained nodes never exceed charges

  function Count(n: Node): nat { 1 + CountAll(n.children) }

  function CountAll(nodes: seq<Node>): nat {
    if nodes == [] then 0 else Count(nodes[0]) + CountAll(nodes[1..])
  }

  lemma {:induction false} CountConcat(a: seq<Node>, b: seq<Node>)
    ensures CountAll(a + b) == CountAll(a) + CountAll(b)
  {
    if a == [] {
      assert a + b == b;
    } else {
      assert (a + b)[1..] == a[1..] + b;
      CountConcat(a[1..], b);
    }
  }

  lemma CountOne(n: Node)
    ensures CountAll([n]) == Count(n)
  {
    assert [n][1..] == [];
  }

  lemma {:induction false} CountUpdate(nodes: seq<Node>, i: nat, n: Node)
    requires i < |nodes|
    ensures CountAll(nodes[i := n]) == CountAll(nodes) - Count(nodes[i]) + Count(n)
  {
    if i > 0 {
      assert nodes[i := n][1..] == nodes[1..][i - 1 := n];
      CountUpdate(nodes[1..], i - 1, n);
    } else {
      assert nodes[0 := n][1..] == nodes[1..];
    }
  }

  lemma {:induction false} CountAppended(nodes: seq<Node>, path: seq<string>, added: seq<Node>)
    requires FindRelative(nodes, path).Some?
    ensures CountAll(AppendAt(nodes, path, added)) == CountAll(nodes) + CountAll(added)
    decreases |path|
  {
    var i := FirstNamed(nodes, path[0]);
    var n := nodes[i];
    if |path| == 1 {
      CountConcat(n.children, added);
      CountUpdate(nodes, i, n.(children := n.children + added));
    } else {
      CountAppended(n.children, path[1..], added);
      CountUpdate(nodes, i, n.(children := AppendAt(n.children, path[1..], added)));
    }
  }

  lemma {:induction false} CountWrapped(nodes: seq<Node>)
    ensures CountAll(WrapInCases(nodes)) == CountAll(nodes) + Unwrapped(nodes)
  {
    if nodes != [] {
      CountWrapped(nodes[1..]);
      var first := if nodes[0].kind.Case? then nodes[0] else Node(nodes[0].name, Case, [nodes[0]]);
      CountOne(nodes[0]);
      CountOne(first);
      CountConcat([first], WrapInCases(nodes[1..]));
    }
  }

  lemma CountOperationIO(kind: Kind, children: seq<Node>)
    ensures CountAll(WithOperationIO(kind, children)) ==
            CountAll(children) + (|WithOperationIO(kind, children)| - |children|)
  {
    var input, output := Node("input", Input, []), Node("output", Output, []);
    CountOne(input);
    CountOne(output);
    CountConcat([input], children);
    CountConcat(children, [output]);
    CountConcat([input] + children, [output]);
  }

  /** Building keeps at most as many nodes as it charges. */
  lemma {:induction false} NodeRetained(g: Groupings, st: Stmt, stack: set<GroupId>)
    requires st.NodeStmt?
    ensures CountAll(BuildNode(g, st, stack).nodes) <= BuildNode(g, st, stack).charges
    decreases g.Keys - stack, Size(st), 1
  {
    hide WithOperationIO;
    var below := BuildChildren(g, st.body, st.kind, stack);
    ChildrenRetained(g, st.body, st.kind, stack);
    CountOperationIO(st.kind, below.nodes);
    CountOne(BuildNode(g, st, stack).nodes[0]);
  }

  lemma {:induction false} ChildrenRetained(g: Groupings, sts: seq<Stmt>, parent: Kind, stack: set<GroupId>)
    ensures CountAll(BuildChildren(g, sts, parent, stack).nodes) <= BuildChildren(g, sts, parent, stack).charges
    decreases g.Keys - stack, SizeAll(sts), 5
  {
    hide BuildChild;
    if sts != [] {
      ChildRetained(g, sts[0], parent, stack);
      ChildrenRetained(g, sts[1..], parent, stack);
      CountConcat(BuildChild(g, sts[0], parent, stack).nodes, BuildChildren(g, sts[1..], parent, stack).nodes);
    }
  }

  lemma {:induction false} ChildRetained(g: Groupings, st: Stmt, parent: Kind, stack: set<GroupId>)
    ensures CountAll(BuildChild(g, st, parent, stack).nodes) <= BuildChild(g, st, parent, stack).charges
    decreases g.Keys - stack, Size(st), 4
  {
    hide BuildNode, BuildChoice, ExpandUses;
    if st.included {
      if st.UsesStmt? {
        UsesRetained(g, st, parent, stack);
      } else {
        ChoiceRetained(g, st, stack);
        NodeRetained(g, st, stack);
      }
    }
  }

  /** How many statements below a choice get an uncharged shorthand case. */
  function Shorthands(sts: seq<Stmt>): nat {
    if sts == [] then 0 else (if IsShorthand(sts[0]) then 1 else 0) + Shorthands(sts[1..])
  }

  predicate IsShorthand(st: Stmt) {
    st.included && st.NodeStmt? && !st.kind.Case? && IsSchemaChild(st.kind)
  }

  /** The first build of a choice's children pays for the shorthand cases. */
  lemma {:induction false} ShorthandsPaid(g: Groupings, sts: seq<Stmt>, stack: set<GroupId>)
    ensures Shorthands(sts) <= BuildChildren(g, sts, Choice, stack).charges
  {
    hide BuildNode, BuildChoice, ExpandUses;
    if sts != [] {
      ShorthandsPaid(g, sts[1..], stack);
    }
  }

  lemma {:induction false} ChoiceRetained(g: Groupings, st: Stmt, stack: set<GroupId>)
    requires st.NodeStmt?
    ensures st.kind.Choice? ==> CountAll(BuildChoice(g, st, stack).nodes) <= BuildChoice(g, st, stack).charges
    decreases g.Keys - stack, Size(st), 3
  {
    hide BuildCases, BuildChildren;
    if st.kind.Choice? {
      CasesRetained(g, st.body, stack);
      ShorthandsPaid(g, st.body, stack);
      CountOne(BuildChoice(g, st, stack).nodes[0]);
    }
  }

  lemma {:induction false} CasesRetained(g: Groupings, sts: seq<Stmt>, stack: set<GroupId>)
    ensures CountAll(BuildCases(g, sts, stack).nodes) <= BuildCases(g, sts, stack).charges + Shorthands(sts)
    decreases g.Keys - stack, SizeAll(sts), 5
  {
    hide BuildNode;
    if sts != [] {
      var st := sts[0];
      CasesRetained(g, sts[1..], stack);
      CountConcat(BuildCase(g, st, stack).nodes, BuildCases(g, sts[1..], stack).nodes);
      if st.included && st.NodeStmt? {
        NodeRetained(g, st, stack);
        CountOne(Node(st.name, Case, BuildNode(g, st, stack).nodes));
      }
    }
  }

  lemma {:induction false} UsesRetained(g: Groupings, st: Stmt, parent: Kind, stack: set<GroupId>)
    requires st.UsesStmt?
    ensures CountAll(ExpandUses(g, st, parent, stack).nodes) <= ExpandUses(g, st, parent, stack).charges
    decreases g.Keys - stack, Size(st), 1
  {
    hide BuildChildren, ApplyUsesAugments;
    if st.group.Some? && st.group.value in g && st.group.value !in stack {
      var group := st.group.value;
      assert group in g.Keys - stack;
      ChildrenRetained(g, g[group], parent, stack + {group});
      AugmentsRetained(g, st.augments, BuildChildren(g, g[group], parent, stack + {group}), stack + {group});
    }
  }

  lemma {:induction false} AugmentsRetained(g: Groupings, augments: seq<UsesAugment>, before: Built,
                                            stack: set<GroupId>)
    requires CountAll(before.nodes) <= before.charges
    ensures var built := ApplyUsesAugments(g, augments, before, stack); CountAll(built.nodes) <= built.charges
    decreases g.Keys - stack, SizeAugments(augments), 0
  {
    hide BuildChildren, FindRelative, AppendAt;
    if augments != [] {
      var aug := augments[0];
      if aug.included && FindRelative(before.nodes, aug.path).Some? {
        var target := FindRelative(before.nodes, aug.path).value;
        var added := BuildAugmentChildren(g, aug.body, target.kind, stack);
        ChildrenRetained(g, aug.body, target.kind, stack);
        CountWrapped(BuildChildren(g, aug.body, target.kind, stack).nodes);
        CountAppended(before.nodes, aug.path, added.nodes);
      }
      AugmentsRetained(g, augments[1..], ApplyUsesAugment(g, aug, before, stack), stack);
    }
  }

  /** A whole module keeps at most as many nodes as were charged for it. */
  lemma {:induction false} RetainedWithinCharges(g: Groupings, sts: seq<Stmt>)
    ensures CountAll(BuildTop(g, sts).nodes) <= BuildTop(g, sts).charges
  {
    hide BuildNode, ExpandUses;
    if sts != [] {
      var st := sts[0];
      RetainedWithinCharges(g, sts[1..]);
      CountConcat(BuildTopStatement(g, st).nodes, BuildTop(g, sts[1..]).nodes);
      if st.UsesStmt? {
        UsesRetained(g, st, ModuleRoot, {});
      } else {
        NodeRetained(g, st, {});
      }
    }
  }
}
