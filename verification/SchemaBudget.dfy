/** Building schema nodes against a budget, which is charged as nodes are instantiated. */
module SchemaBudget {
  import opened Common
  import opened Expansion

  type Uint64 = n: nat | n <= MAX_UINT64

  const DEFAULT_MAX_SCHEMA_NODES: nat := 0x80_0000

  /** n charges starting from (count, exceeded) lead to (count', exceeded') under the limit. */
  ghost predicate Charged(limit: nat, count: nat, exceeded: bool, n: nat, count': nat, exceeded': bool) {
    if !exceeded && count + n <= limit then !exceeded' && count' == count + n
    else exceeded' && count' == limit
  }

  class BuildState {
    const groupings: Groupings
    // The budget the caller selected; 0 selects the default.
    const maxSchemaNodes: Uint64
    var schemaNodes: nat
    var limitErr: bool
    // Whether a schema error other than an exhausted budget was recorded.
    var failed: bool

    constructor (groupings: Groupings, maxSchemaNodes: Uint64)
      ensures Valid() && schemaNodes == 0 && !limitErr && !failed
      ensures this.groupings == groupings && this.maxSchemaNodes == maxSchemaNodes
    {
      this.groupings, this.maxSchemaNodes := groupings, maxSchemaNodes;
      schemaNodes, limitErr, failed := 0, false, false;
    }

    function Limit(): Uint64 { if maxSchemaNodes == 0 then DEFAULT_MAX_SCHEMA_NODES else maxSchemaNodes }

    ghost predicate Valid()
      reads this
    {
      schemaNodes <= Limit() && (limitErr ==> schemaNodes == Limit())
    }

    /** The effect of building what b describes, once the budget is known to have sufficed. */
    twostate predicate Builds(b: Built, nodes: seq<Node>)
      reads this
    {
      && Charged(Limit(), old(schemaNodes), old(limitErr), b.charges, schemaNodes, limitErr)
      && (!limitErr ==> nodes == b.nodes && failed == (old(failed) || !b.ok))
    }

    /** Charges one node; false once the budget is exhausted. */
    method AdmitSchemaNode() returns (ok: bool)
      requires Valid()
      modifies this`schemaNodes, this`limitErr
      ensures Valid() && Charged(Limit(), old(schemaNodes), old(limitErr), 1, schemaNodes, limitErr)
      ensures ok == !limitErr
    {
      if limitErr {
        return false;
      }
      if schemaNodes < Limit() {
        schemaNodes := schemaNodes + 1;
        return true;
      }
      limitErr := true;
      return false;
    }

    method BuildNodeSeen(st: Stmt, stack: set<GroupId>) returns (n: Node)
      requires Valid() && st.NodeStmt?
      modifies this
      ensures Valid() && Builds(BuildNode(groupings, st, stack), [n])
      decreases groupings.Keys - stack, Size(st), 1
    {
      hide BuildChildren;
      var admitted := AdmitSchemaNode();
      if !admitted {
        // A childless placeholder.
        return Node(st.name, st.kind, []);
      }
      var children := BuildChildrenSeen(st.body, st.kind, stack);
      children := AddImplicitOperationIO(st.kind, children);
      n := Node(st.name, st.kind, children);
    }

    method AddImplicitOperationIO(kind: Kind, children: seq<Node>) returns (r: seq<Node>)
      requires Valid()
      modifies this`schemaNodes, this`limitErr
      ensures Valid()
      ensures Charged(Limit(), old(schemaNodes), old(limitErr), |WithOperationIO(kind, children)| - |children|,
                      schemaNodes, limitErr)
      ensures !limitErr ==> r == WithOperationIO(kind, children)
    {
      hide HasChild;
      r := children;
      if kind.Rpc? || kind.Action? {
        if !HasChild(r, "input") {
          var admitted := AdmitSchemaNode();
          if !admitted {
            return;
          }
          r := [Node("input", Input, [])] + r;
        }
        if !HasChild(r, "output") {
          var admitted := AdmitSchemaNode();
          if !admitted {
            return;
          }
          r := r + [Node("output", Output, [])];
        }
      }
    }

    method BuildChildrenSeen(sts: seq<Stmt>, parent: Kind, stack: set<GroupId>) returns (nodes: seq<Node>)
      requires Valid()
      modifies this
      ensures Valid() && Builds(BuildChildren(groupings, sts, parent, stack), nodes)
      decreases groupings.Keys - stack, SizeAll(sts), 5
    {
      hide BuildChild;
      nodes := [];
      var i := 0;
      ghost var all := BuildChildren(groupings, sts, parent, stack);
      ghost var soFar := NOTHING;
      assert sts[0..] == sts;
      while i < |sts|
        invariant 0 <= i <= |sts| && SizeAll(sts[i..]) <= SizeAll(sts)
        invariant Valid() && Builds(soFar, nodes)
        invariant all == Then(soFar, BuildChildren(groupings, sts[i..], parent, stack))
      {
        assert sts[i..][0] == sts[i] && sts[i..][1..] == sts[i + 1..];
        ghost var one := BuildChild(groupings, sts[i], parent, stack);
        ThenInTurn(soFar, one, BuildChildren(groupings, sts[i + 1..], parent, stack));
        var more := BuildChildSeen(sts[i], parent, stack);
        nodes := nodes + more;
        soFar := Then(soFar, one);
        i := i + 1;
      }
      ThenNothing(soFar);
    }

    method BuildChildSeen(st: Stmt, parent: Kind, stack: set<GroupId>) returns (nodes: seq<Node>)
      requires Valid()
      modifies this
      ensures Valid() && Builds(BuildChild(groupings, st, parent, stack), nodes)
      decreases groupings.Keys - stack, Size(st), 4
    {
      hide BuildNode, BuildChoice, ExpandUses;
      nodes := [];
      if st.included {
        if st.UsesStmt? {
          if AllowsUses(parent) {
            nodes := ExpandUsesSeen(st, parent, stack);
          } else {
            failed := true;
          }
        } else if st.kind.Choice? {
          var n := BuildChoiceSeen(st, stack);
          nodes := [n];
        } else if st.kind.Rpc? || st.kind.ModuleRoot? {
          failed := true;
        } else {
          var n := BuildNodeSeen(st, stack);
          nodes := [n];
        }
      }
    }

    method BuildChoiceSeen(st: Stmt, stack: set<GroupId>) returns (n: Node)
      requires Valid() && st.NodeStmt?
      modifies this
      ensures Valid() && Builds(BuildChoice(groupings, st, stack), [n])
      decreases groupings.Keys - stack, Size(st), 3
    {
      hide BuildNode, BuildCases;
      n := BuildNodeSeen(st, stack);
      var cases := BuildCasesSeen(st.body, stack);
      n := n.(children := cases);
    }

    method BuildCasesSeen(sts: seq<Stmt>, stack: set<GroupId>) returns (nodes: seq<Node>)
      requires Valid()
      modifies this
      ensures Valid() && Builds(BuildCases(groupings, sts, stack), nodes)
      decreases groupings.Keys - stack, SizeAll(sts), 5
    {
      hide BuildCase;
      nodes := [];
      var i := 0;
      ghost var all := BuildCases(groupings, sts, stack);
      ghost var soFar := NOTHING;
      assert sts[0..] == sts;
      while i < |sts|
        invariant 0 <= i <= |sts| && SizeAll(sts[i..]) <= SizeAll(sts)
        invariant Valid() && Builds(soFar, nodes)
        invariant all == Then(soFar, BuildCases(groupings, sts[i..], stack))
      {
        var st := sts[i];
        assert sts[i..][0] == st && sts[i..][1..] == sts[i + 1..];
        ghost var one := BuildCase(groupings, st, stack);
        ThenInTurn(soFar, one, BuildCases(groupings, sts[i + 1..], stack));
        var more := BuildCaseSeen(st, stack);
        nodes := nodes + more;
        soFar := Then(soFar, one);
        i := i + 1;
      }
      ThenNothing(soFar);
    }

    /** One statement of a choice: a case, or a node with its shorthand case. */
    method BuildCaseSeen(st: Stmt, stack: set<GroupId>) returns (nodes: seq<Node>)
      requires Valid()
      modifies this
      ensures Valid() && Builds(BuildCase(groupings, st, stack), nodes)
      decreases groupings.Keys - stack, Size(st), 2
    {
      hide BuildNode;
      nodes := [];
      if st.included {
        if st.UsesStmt? {
          failed := true;
        } else if st.kind.Case? {
          var n := BuildNodeSeen(st, stack);
          nodes := [n];
        } else if IsSchemaChild(st.kind) {
          var n := BuildNodeSeen(st, stack);
          nodes := [Node(st.name, Case, [n])];
        }
      }
    }

    method ExpandUsesSeen(st: Stmt, parent: Kind, stack: set<GroupId>) returns (nodes: seq<Node>)
      requires Valid() && st.UsesStmt?
      modifies this
      ensures Valid() && Builds(ExpandUses(groupings, st, parent, stack), nodes)
      decreases groupings.Keys - stack, Size(st), 1
    {
      hide BuildChildren, ApplyUsesAugment;
      if st.group.None? || st.group.value !in groupings || st.group.value in stack {
        failed := true;
        return [];
      }
      var group := st.group.value;
      assert group in groupings.Keys - stack;
      var inside := stack + {group};
      nodes := BuildChildrenSeen(groupings[group], parent, inside);
      var i := 0;
      ghost var soFar := BuildChildren(groupings, groupings[group], parent, inside);
      assert st.augments[0..] == st.augments;
      while i < |st.augments|
        invariant 0 <= i <= |st.augments|
        invariant Valid() && Builds(soFar, nodes)
        invariant ExpandUses(groupings, st, parent, stack) ==
                  ApplyUsesAugments(groupings, st.augments[i..], soFar, inside)
      {
        assert st.augments[i..][0] == st.augments[i] && st.augments[i..][1..] == st.augments[i + 1..];
        label Before:
        nodes := ApplyUsesAugmentSeen(st.augments[i], nodes, inside, soFar);
        soFar := ApplyUsesAugment(groupings, st.augments[i], soFar, inside);
        i := i + 1;
      }
    }

    method ApplyUsesAugmentSeen(aug: UsesAugment, before: seq<Node>, stack: set<GroupId>, ghost b: Built)
      returns (nodes: seq<Node>)
      requires Valid() && (!limitErr ==> before == b.nodes)
      modifies this
      ensures Valid()
      ensures var r := ApplyUsesAugment(groupings, aug, b, stack);
              && r.charges >= b.charges && (r.ok ==> b.ok)
              && Charged(Limit(), old(schemaNodes), old(limitErr), r.charges - b.charges, schemaNodes, limitErr)
              && (!limitErr ==> nodes == r.nodes)
              && (!limitErr ==> (old(failed) ==> failed) && (b.ok ==> failed == (old(failed) || !r.ok)))
      decreases groupings.Keys - stack, SizeAll(aug.body), 7
    {
      hide BuildAugmentChildren, FindRelative, AppendAt;
      nodes := before;
      if aug.included {
        match FindRelative(before, aug.path) {
          case None =>
            failed := true;
          case Some(target) =>
            var added := BuildAugmentChildrenSeen(aug.body, target.kind, stack);
            nodes := AppendAt(before, aug.path, added);
        }
      }
    }

    method BuildAugmentChildrenSeen(sts: seq<Stmt>, target: Kind, stack: set<GroupId>) returns (nodes: seq<Node>)
      requires Valid()
      modifies this
      ensures Valid() && Builds(BuildAugmentChildren(groupings, sts, target, stack), nodes)
      decreases groupings.Keys - stack, SizeAll(sts), 6
    {
      hide BuildChildren;
      nodes := BuildChildrenSeen(sts, target, stack);
      if target.Choice? {
        nodes := WrapShorthands(nodes);
      }
    }

    /** Puts a charged shorthand case around each node that is not a case. */
    method WrapShorthands(built: seq<Node>) returns (nodes: seq<Node>)
      requires Valid()
      modifies this`schemaNodes, this`limitErr
      ensures Valid() && Charged(Limit(), old(schemaNodes), old(limitErr), Unwrapped(built), schemaNodes, limitErr)
      ensures !limitErr ==> nodes == WrapInCases(built)
    {
      hide WrapInCases, Unwrapped;
      nodes := built;
      var i := 0;
      WrapFirst(built);
      while i < |nodes|
        invariant 0 <= i <= |nodes| == |built|
        invariant Valid() && Unwrapped(built) >= Unwrapped(built[i..])
        invariant Charged(Limit(), old(schemaNodes), old(limitErr), Unwrapped(built) - Unwrapped(built[i..]),
                          schemaNodes, limitErr)
        invariant nodes[i..] == built[i..]
        invariant WrapInCases(built) == nodes[..i] + WrapInCases(built[i..])
      {
        var child := nodes[i];
        WrapNext(built, nodes, i);
        if !child.kind.Case? {
          var admitted := AdmitSchemaNode();
          if !admitted {
            return;
          }
          nodes := nodes[i := Node(child.name, Case, [child])];
        }
        i := i + 1;
      }
      WrapLast(built, nodes, i);
    }

    /** Builds the nodes of one module against what is left of the budget. */
    method BuildIR(sts: seq<Stmt>) returns (nodes: seq<Node>)
      requires Valid()
      modifies this
      ensures Valid() && Builds(BuildTop(groupings, sts), nodes)
    {
      hide BuildNode, ExpandUses;
      nodes := [];
      var i := 0;
      ghost var all := BuildTop(groupings, sts);
      ghost var soFar := NOTHING;
      assert sts[0..] == sts;
      while i < |sts|
        invariant 0 <= i <= |sts|
        invariant Valid() && Builds(soFar, nodes)
        invariant all == Then(soFar, BuildTop(groupings, sts[i..]))
      {
        var st := sts[i];
        assert sts[i..][0] == st && sts[i..][1..] == sts[i + 1..];
        ghost var one := BuildTopStatement(groupings, st);
        ThenInTurn(soFar, one, BuildTop(groupings, sts[i + 1..]));
        if st.included {
          if st.UsesStmt? {
            var more := ExpandUsesSeen(st, ModuleRoot, {});
            nodes := nodes + more;
          } else if st.kind.Rpc? || IsSchemaChild(st.kind) {
            var n := BuildNodeSeen(st, {});
            nodes := nodes + [n];
          }
        }
        soFar := Then(soFar, one);
        i := i + 1;
      }
      ThenNothing(soFar);
    }

    /** Resets the budget; every module and augment of the rebuild then draws on it. */
    method BeginRebuild()
      modifies this
      ensures Valid() && schemaNodes == 0 && !limitErr && !failed
    {
      schemaNodes, limitErr, failed := 0, false, false;
    }

    method BuildModules(modules: seq<seq<Stmt>>) returns (roots: seq<seq<Node>>)
      requires Valid()
      modifies this
      ensures Valid() && Spends(ModulesTally(groupings, modules))
      ensures !limitErr ==>
                && |roots| == |modules|
                && forall i :: 0 <= i < |modules| ==> roots[i] == BuildTop(groupings, modules[i]).nodes
    {
      hide BuildTop;
      roots := [];
      var i := 0;
      assert modules[..0] == [];
      while i < |modules|
        invariant 0 <= i <= |modules|
        invariant Valid() && Spends(ModulesTally(groupings, modules[..i]))
        invariant |roots| == i && (!limitErr ==> forall k :: 0 <= k < i ==>
                                   roots[k] == BuildTop(groupings, modules[k]).nodes)
      {
        assert modules[..i + 1][..i] == modules[..i];
        var nodes := BuildIR(modules[i]);
        roots := roots + [nodes];
        i := i + 1;
      }
      assert modules[..i] == modules;
    }

    /** Builds what the applied top-level augments add. */
    method BuildAugments(augments: seq<TargetedAugment>) returns (added: seq<seq<Node>>)
      requires Valid()
      modifies this
      ensures Valid() && Spends(AugmentsTally(groupings, augments))
      ensures !limitErr ==>
                && |added| == |augments|
                && forall i :: 0 <= i < |augments| ==> added[i] == AugmentBuild(groupings, augments[i]).nodes
    {
      hide BuildAugmentChildren;
      added := [];
      var i := 0;
      assert augments[..0] == [];
      while i < |augments|
        invariant 0 <= i <= |augments|
        invariant Valid() && Spends(AugmentsTally(groupings, augments[..i]))
        invariant |added| == i && (!limitErr ==> forall k :: 0 <= k < i ==>
                                   added[k] == AugmentBuild(groupings, augments[k]).nodes)
      {
        assert augments[..i + 1][..i] == augments[..i];
        var nodes := BuildAugmentChildrenSeen(augments[i].body, augments[i].target, {});
        added := added + [nodes];
        i := i + 1;
      }
      assert augments[..i] == augments;
    }

    /** Builds each grouping body once on its own, until one is found at fault. */
    method CheckGroupings(order: seq<seq<Stmt>>, bodyValid: seq<Node> -> bool)
      requires Valid() && !failed && !limitErr
      modifies this
      ensures Valid() && Spends(GroupingsTally(groupings, order, bodyValid))
    {
      hide BuildChildren;
      var i := 0;
      assert order[0..] == order;
      ghost var all := GroupingsTally(groupings, order, bodyValid);
      while i < |order|
        invariant 0 <= i <= |order| && Valid() && !failed && !limitErr && old(schemaNodes) <= schemaNodes
        invariant var rest := GroupingsTally(groupings, order[i..], bodyValid);
                  all == Tally(schemaNodes - old(schemaNodes) + rest.charges, rest.ok)
      {
        assert order[i..][0] == order[i] && order[i..][1..] == order[i + 1..];
        var children := BuildChildrenSeen(order[i], Container, {});
        if limitErr || failed {
          return;
        }
        if !bodyValid(children) {
          failed := true;
          return;
        }
        i := i + 1;
      }
    }

    /** The charges and the errors of a part of a rebuild. */
    twostate predicate Spends(t: Tally)
      reads this
    {
      && Charged(Limit(), old(schemaNodes), old(limitErr), t.charges, schemaNodes, limitErr)
      && (!limitErr ==> failed == (old(failed) || !t.ok))
    }

    /**
     A rebuild over all modules: their statements, the applied augments, and each grouping on its
     own, one budget for all.  The limit is exceeded exactly when the unlimited rebuild charges
     more; otherwise all nodes are those of the unlimited build, and no more than were charged.
     checksPass and bodyValid tell whether the other checks before and in the last step hold.
     */
    method Rebuild(modules: seq<seq<Stmt>>, augments: seq<TargetedAugment>, checksPass: bool,
                   order: seq<seq<Stmt>>, bodyValid: seq<Node> -> bool)
      returns (roots: seq<seq<Node>>, added: seq<seq<Node>>)
      modifies this
      ensures var t := RebuildTally(groupings, modules, augments, checksPass, order, bodyValid);
              && (limitErr <==> t.charges > Limit())
              && schemaNodes == (if limitErr then Limit() else t.charges)
              && (!limitErr ==> failed == !t.ok)
      ensures !limitErr ==>
                && |roots| == |modules| && forall i :: 0 <= i < |modules| ==>
                  roots[i] == BuildTop(groupings, modules[i]).nodes
      ensures !limitErr && ModulesTally(groupings, modules).ok ==>
                && |added| == |augments| && forall i :: 0 <= i < |augments| ==>
                  added[i] == AugmentBuild(groupings, augments[i]).nodes
      ensures !limitErr ==> CountEach(roots) + CountEach(added) <= schemaNodes
    {
      hide ModulesTally, AugmentsTally, GroupingsTally, BuildTop, AugmentBuild, CountEach;
      BeginRebuild();
      added := [];
      roots := BuildModules(modules);
      if !limitErr {
        ModulesRetained(groupings, modules, roots);
        NothingCounted();
      }
      if limitErr || failed {
        return;
      }
      added := BuildAugments(augments);
      if !limitErr {
        AugmentsRetainedEach(groupings, augments, added);
      }
      if limitErr || failed {
        return;
      }
      if !checksPass {
        failed := true;
        return;
      }
      CheckGroupings(order, bodyValid);
    }
  }

  /** An applied top-level augment: its statements and the kind of its target. */
  datatype TargetedAugment = TargetedAugment(body: seq<Stmt>, target: Kind)

  /** What a part of a rebuild charges, and whether it records no error but an exhausted budget. */
  datatype Tally = Tally(charges: nat, ok: bool)

  function AugmentBuild(g: Groupings, a: TargetedAugment): Built { BuildAugmentChildren(g, a.body, a.target, {}) }

  function ModulesTally(g: Groupings, modules: seq<seq<Stmt>>): Tally {
    if modules == [] then Tally(0, true)
    else
      var before, last := ModulesTally(g, modules[..|modules| - 1]), BuildTop(g, modules[|modules| - 1]);
      Tally(before.charges + last.charges, before.ok && last.ok)
  }

  function AugmentsTally(g: Groupings, augments: seq<TargetedAugment>): Tally {
    if augments == [] then Tally(0, true)
    else
      var before, last := AugmentsTally(g, augments[..|augments| - 1]), AugmentBuild(g, augments[|augments| - 1]);
      Tally(before.charges + last.charges, before.ok && last.ok)
  }

  /** Grouping bodies are built below a scratch container; the first one at fault ends the step. */
  function GroupingsTally(g: Groupings, order: seq<seq<Stmt>>, bodyValid: seq<Node> -> bool): Tally {
    if order == [] then Tally(0, true)
    else
      var first := BuildChildren(g, order[0], Container, {});
      if !first.ok || !bodyValid(first.nodes) then Tally(first.charges, false)
      else
        var rest := GroupingsTally(g, order[1..], bodyValid);
        Tally(first.charges + rest.charges, rest.ok)
  }

  /** The rebuild without a limit; an error ends it before the next step. */
  function RebuildTally(g: Groupings, modules: seq<seq<Stmt>>, augments: seq<TargetedAugment>, checksPass: bool,
                        order: seq<seq<Stmt>>, bodyValid: seq<Node> -> bool): Tally
  {
    var m, a := ModulesTally(g, modules), AugmentsTally(g, augments);
    if !m.ok then m
    else if !a.ok || !checksPass then Tally(m.charges + a.charges, false)
    else
      var c := GroupingsTally(g, order, bodyValid);
      Tally(m.charges + a.charges + c.charges, c.ok)
  }

  function CountEach(parts: seq<seq<Node>>): nat {
    if parts == [] then 0 else CountEach(parts[..|parts| - 1]) + CountAll(parts[|parts| - 1])
  }

  lemma NothingCounted()
    ensures CountEach([]) == 0
  {
  }

  lemma {:induction false} ModulesRetained(g: Groupings, modules: seq<seq<Stmt>>, roots: seq<seq<Node>>)
    requires |roots| == |modules| && forall i :: 0 <= i < |modules| ==> roots[i] == BuildTop(g, modules[i]).nodes
    ensures CountEach(roots) <= ModulesTally(g, modules).charges
  {
    hide BuildTop;
    if modules != [] {
      var n := |modules| - 1;
      RetainedWithinCharges(g, modules[n]);
      ModulesRetained(g, modules[..n], roots[..n]);
    }
  }

  lemma {:induction false} AugmentsRetainedEach(g: Groupings, augments: seq<TargetedAugment>, added: seq<seq<Node>>)
    requires |added| == |augments| && forall i :: 0 <= i < |augments| ==> added[i] == AugmentBuild(g, augments[i]).nodes
    ensures CountEach(added) <= AugmentsTally(g, augments).charges
  {
    hide BuildChildren;
    if augments != [] {
      var n := |augments| - 1;
      ChildrenRetained(g, augments[n].body, augments[n].target, {});
      CountWrapped(BuildChildren(g, augments[n].body, augments[n].target, {}).nodes);
      AugmentsRetainedEach(g, augments[..n], added[..n]);
    }
  }

  lemma WrapNext(built: seq<Node>, nodes: seq<Node>, i: nat)
    requires i < |nodes| == |built| && nodes[i..] == built[i..]
    ensures built[i] == nodes[i] && nodes[i + 1..] == built[i + 1..]
    ensures Unwrapped(built[i..]) == (if built[i].kind.Case? then 0 else 1) + Unwrapped(built[i + 1..])
    ensures var wrapped := nodes[i := if built[i].kind.Case? then built[i] else Node(built[i].name, Case, [built[i]])];
            && wrapped[i + 1..] == built[i + 1..]
            && nodes[..i] + WrapInCases(built[i..]) == wrapped[..i + 1] + WrapInCases(built[i + 1..])
            && (built[i].kind.Case? ==> wrapped == nodes)
  {
    assert built[i..][0] == built[i] && nodes[i..][0] == nodes[i];
    assert built[i..][1..] == built[i + 1..] && nodes[i..][1..] == nodes[i + 1..];
    var w := if built[i].kind.Case? then built[i] else Node(built[i].name, Case, [built[i]]);
    assert nodes[i := w][..i + 1] == nodes[..i] + [w];
    assert nodes[..i] + ([w] + WrapInCases(built[i + 1..])) == nodes[..i] + [w] + WrapInCases(built[i + 1..]);
  }

  lemma WrapFirst(built: seq<Node>)
    ensures built[0..] == built && built[..0] == [] && [] + WrapInCases(built) == WrapInCases(built)
  {
  }

  lemma WrapLast(built: seq<Node>, nodes: seq<Node>, i: nat)
    requires i == |nodes| == |built|
    ensures Unwrapped(built[i..]) == 0 && nodes[..i] + WrapInCases(built[i..]) == nodes
  {
    assert built[i..] == [] && nodes[..i] == nodes && nodes + [] == nodes;
  }

  lemma ThenInTurn(a: Built, b: Built, c: Built)
    ensures Then(a, Then(b, c)) == Then(Then(a, b), c)
  {
    assert a.nodes + (b.nodes + c.nodes) == a.nodes + b.nodes + c.nodes;
  }

  lemma ThenNothing(a: Built)
    ensures Then(a, NOTHING) == a
  {
    assert a.nodes + [] == a.nodes;
  }
}
