/**
 Which nodes a projection holds, and in which roles: the selected nodes, those above them,
 list keys, and below a selected node whatever is wanted there or leads to what is wanted.
 */
module ProjectionContents {
  import opened Common
  import opened IrTrees
  import opened Projections
  import opened ProjectionOrder
  import opened SchemaPathProjection
  import opened ProjectionPermutations

  // ---- What is wanted below a selected node

  /** Not state data that is to be left out. */
  ghost predicate Kept(t: Setting, n: Node) { t.opts.configOnly ==> n.id !in t.attrs.readOnly }

  /** A mandatory node that the paths of the selection would drop and the options save. */
  ghost predicate Saved(t: Setting, f: Filters, n: Node) {
    && t.opts.protectMandatory && (t.opts.includeMandatory || t.opts.includeDescendants) && n.id in t.attrs.mandatory
    && (n.id in f.allowed ==> n.id in f.ignored)
  }

  /** The paths let the node through. */
  ghost predicate LetThrough(f: Filters, n: Node) { n.id in f.allowed && n.id !in f.ignored }

  /** Wanted on its own account: let through or saved, and some option asks for it. */
  ghost predicate Wanted(t: Setting, f: Filters, n: Node) {
    && Kept(t, n)
    && (LetThrough(f, n) || Saved(t, f, n))
    && (t.opts.includeDescendants
        || (t.opts.includeMandatory && n.id in t.attrs.mandatory)
        || (LetThrough(f, n) && t.opts.includeDefaults && n.id in t.attrs.defaulted))
  }

  /** The roles of a node below a selected one; one that only leads to wanted nodes is just a descendant. */
  ghost predicate HasRole(t: Setting, f: Filters, n: Node, role: Role) {
    if !Wanted(t, f, n) then role == Descendant
    else match role
      case Descendant => t.opts.includeDescendants
      case Mandatory => n.id in t.attrs.mandatory && (t.opts.includeMandatory || Saved(t, f, n))
      case Default => n.id in t.attrs.defaulted && t.opts.includeDefaults
      case _ => false
  }

  /** The same conditions as the branches of the inclusion test. */
  lemma InclusionIsWanted(t: Setting, f: Filters, n: Node)
    ensures Inclusion(t, f, n).Some? <==> Wanted(t, f, n)
    ensures Wanted(t, f, n) ==> forall role :: role in Inclusion(t, f, n).value <==> HasRole(t, f, n, role)
  {
  }

  // ---- Chains of visible children

  ghost predicate Chain(t: Setting, n: Node, steps: seq<Node>)
    decreases |steps|
  {
    steps != [] ==> steps[0] in VisibleChildren(n, t.opts.flattenChoices) && Chain(t, steps[0], steps[1..])
  }

  /** Following the steps below n leads through kept nodes to a wanted one. */
  ghost predicate LeadsVia(t: Setting, f: Filters, n: Node, steps: seq<Node>) {
    && steps != [] && Chain(t, n, steps) && Wanted(t, f, steps[|steps| - 1])
    && forall i :: 0 <= i < |steps| - 1 ==> Kept(t, steps[i])
  }

  ghost predicate LeadsOn(t: Setting, f: Filters, n: Node, steps: seq<Node>, rest: seq<Node>) {
    LeadsVia(t, f, n, steps + rest)
  }

  /** The last of the steps is wanted or leads to a wanted node. */
  ghost predicate Included(t: Setting, f: Filters, n: Node, steps: seq<Node>) {
    steps != [] && exists rest :: LeadsOn(t, f, n, steps, rest)
  }

  lemma {:induction false} ChainConcat(t: Setting, n: Node, a: seq<Node>, b: seq<Node>)
    ensures Chain(t, n, a + b) <==> Chain(t, n, a) && Chain(t, if a == [] then n else a[|a| - 1], b)
    decreases |a|
  {
    hide VisibleChildren;
    if a == [] {
      assert a + b == b;
    } else {
      assert (a + b)[0] == a[0] && (a + b)[1..] == a[1..] + b;
      ChainConcat(t, a[0], a[1..], b);
    }
  }

  /** The search below a node finds something exactly when a chain of kept nodes leads to a wanted one. */
  lemma {:induction false} SearchIsChain(t: Setting, f: Filters, n: Node)
    ensures HasIncludedDescendant(t, f, n) <==> Kept(t, n) && exists rest :: LeadsVia(t, f, n, rest)
    decreases Size(n)
  {
    hide VisibleChildren, Size, Inclusion, Wanted;
    var cs := VisibleChildren(n, t.opts.flattenChoices);
    forall c | c in cs
      ensures Size(c) < Size(n)
      ensures HasIncludedDescendant(t, f, c) <==> Kept(t, c) && exists rest :: LeadsVia(t, f, c, rest)
      ensures Inclusion(t, f, c).Some? <==> Wanted(t, f, c)
    {
      VisibleBelow(n, c, t.opts.flattenChoices);
      SearchIsChain(t, f, c);
      InclusionIsWanted(t, f, c);
    }
    if HasIncludedDescendant(t, f, n) {
      FoundLeadsOn(t, f, n);
    }
    if Kept(t, n) && exists rest :: LeadsVia(t, f, n, rest) {
      var rest :| LeadsVia(t, f, n, rest);
      var c := rest[0];
      if |rest| > 1 {
        assert LeadsVia(t, f, c, rest[1..]);
      }
      var i :| 0 <= i < |cs| && cs[i] == c;
    }
  }

  lemma FoundLeadsOn(t: Setting, f: Filters, n: Node)
    requires HasIncludedDescendant(t, f, n)
    requires forall c :: c in VisibleChildren(n, t.opts.flattenChoices) ==>
             && (HasIncludedDescendant(t, f, c) <==> Kept(t, c) && exists rest :: LeadsVia(t, f, c, rest))
             && (Inclusion(t, f, c).Some? <==> Wanted(t, f, c))
    ensures Kept(t, n) && exists rest :: LeadsVia(t, f, n, rest)
  {
    hide VisibleChildren, Size, Inclusion, Wanted, LeadsVia;
    var cs := VisibleChildren(n, t.opts.flattenChoices);
    var i :| 0 <= i < |cs| && (Inclusion(t, f, cs[i]).Some?
                               || (VisibleBelow(n, cs[i], t.opts.flattenChoices); HasIncludedDescendant(t, f, cs[i])));
    var c := cs[i];
    assert c in cs;
    if Inclusion(t, f, c).Some? {
      OneStepOn(t, f, n, c);
    } else {
      var rest :| LeadsVia(t, f, c, rest);
      OneStepMore(t, f, n, c, rest);
    }
  }

  lemma OneStepOn(t: Setting, f: Filters, n: Node, c: Node)
    requires c in VisibleChildren(n, t.opts.flattenChoices) && Wanted(t, f, c)
    ensures LeadsVia(t, f, n, [c])
  {
    hide VisibleChildren, Wanted;
    assert [c][1..] == [] && Chain(t, c, []);
  }

  lemma OneStepMore(t: Setting, f: Filters, n: Node, c: Node, rest: seq<Node>)
    requires c in VisibleChildren(n, t.opts.flattenChoices) && Kept(t, c) && LeadsVia(t, f, c, rest)
    ensures LeadsVia(t, f, n, [c] + rest)
  {
    hide VisibleChildren, Wanted, Kept;
    assert ([c] + rest)[1..] == rest;
  }

  /** Every step is included with some roles. */
  ghost predicate StepsIncluded(t: Setting, f: Filters, steps: seq<Node>) {
    forall i :: 0 <= i < |steps| ==> ChildRoles(t, f, steps[i]).Some?
  }

  lemma ChildIncluded(t: Setting, f: Filters, c: Node)
    ensures ChildRoles(t, f, c).Some? <==> Wanted(t, f, c) || (Kept(t, c) && exists rest :: LeadsVia(t, f, c, rest))
    ensures ChildRoles(t, f, c).Some? ==> forall role :: role in ChildRoles(t, f, c).value <==> HasRole(t, f, c, role)
  {
    hide Inclusion, HasIncludedDescendant, LeadsVia, Wanted;
    InclusionIsWanted(t, f, c);
    SearchIsChain(t, f, c);
  }

  /** All the steps are included exactly when the last one is wanted or leads to a wanted node through kept ones. */
  lemma StepsLeadOn(t: Setting, f: Filters, n: Node, steps: seq<Node>)
    ensures steps != [] && Chain(t, n, steps) && StepsIncluded(t, f, steps) <==> Included(t, f, n, steps)
  {
    hide ChildRoles, VisibleChildren, Wanted;
    if steps != [] && Chain(t, n, steps) && StepsIncluded(t, f, steps) {
      LastLeadsOn(t, f, n, steps);
    }
    if Included(t, f, n, steps) {
      var rest :| LeadsOn(t, f, n, steps, rest);
      ChainConcat(t, n, steps, rest);
      forall i | 0 <= i < |steps|
        ensures ChildRoles(t, f, steps[i]).Some?
      {
        StepLeadsOn(t, f, n, steps, rest, i);
      }
    }
  }

  lemma LastLeadsOn(t: Setting, f: Filters, n: Node, steps: seq<Node>)
    requires steps != [] && Chain(t, n, steps) && StepsIncluded(t, f, steps)
    ensures Included(t, f, n, steps)
  {
    hide ChildRoles, Chain, Wanted, Kept;
    var last := steps[|steps| - 1];
    forall i | 0 <= i < |steps|
      ensures Kept(t, steps[i])
    {
      ChildIncluded(t, f, steps[i]);
      WantedIsKept(t, f, steps[i]);
    }
    ChildIncluded(t, f, last);
    if Wanted(t, f, last) {
      assert steps + [] == steps;
      assert LeadsOn(t, f, n, steps, []);
    } else {
      var rest :| LeadsVia(t, f, last, rest);
      ChainConcat(t, n, steps, rest);
      assert LeadsOn(t, f, n, steps, rest);
    }
  }

  lemma WantedIsKept(t: Setting, f: Filters, n: Node)
    ensures Wanted(t, f, n) ==> Kept(t, n)
  {
  }

  lemma StepLeadsOn(t: Setting, f: Filters, n: Node, steps: seq<Node>, rest: seq<Node>, i: nat)
    requires LeadsOn(t, f, n, steps, rest) && i < |steps|
    ensures ChildRoles(t, f, steps[i]).Some?
  {
    hide ChildRoles, LeadsVia, Wanted, Kept;
    ChildIncluded(t, f, steps[i]);
    TailLeadsOn(t, f, n, steps + rest, i);
  }

  lemma TailLeadsOn(t: Setting, f: Filters, n: Node, all: seq<Node>, i: nat)
    requires LeadsVia(t, f, n, all) && i < |all|
    ensures Wanted(t, f, all[i]) || (Kept(t, all[i]) && LeadsVia(t, f, all[i], all[i + 1..]))
  {
    hide VisibleChildren, Wanted, Kept;
    if i < |all| - 1 {
      ChainTail(t, n, all, i);
      var tail := all[i + 1..];
      assert tail[|tail| - 1] == all[|all| - 1];
      forall k | 0 <= k < |tail| - 1
        ensures Kept(t, tail[k])
      {
        assert tail[k] == all[i + 1 + k];
      }
    }
  }

  lemma ChainTail(t: Setting, n: Node, all: seq<Node>, i: nat)
    requires Chain(t, n, all) && i < |all|
    ensures Chain(t, all[i], all[i + 1..])
  {
    hide VisibleChildren, Chain;
    assert all == all[..i + 1] + all[i + 1..];
    ChainConcat(t, n, all[..i + 1], all[i + 1..]);
  }

  // ---- What one selection gives

  /** The steps are included, the last one with these roles. */
  ghost predicate GivesRoles(t: Setting, f: Filters, n: Node, steps: seq<Node>, roles: set<Role>) {
    steps != [] && Chain(t, n, steps) && StepsIncluded(t, f, steps)
      && ChildRoles(t, f, steps[|steps| - 1]) == Some(roles)
  }

  /** The grants below n, by the steps that lead to them. */
  ghost predicate GivenAlong(t: Setting, f: Filters, path: Path, n: Node, steps: seq<Node>, g: Grant) {
    exists roles :: GivesRoles(t, f, n, steps, roles) && g in NodeGrants(t, path + steps, roles)
  }

  lemma SomeSteps(t: Setting, f: Filters, n: Node, steps: seq<Node>, roles: set<Role>)
    requires GivesRoles(t, f, n, steps, roles)
    ensures steps != []
  {
  }

  lemma OneStepGives(t: Setting, f: Filters, n: Node, c: Node, roles: set<Role>)
    ensures GivesRoles(t, f, n, [c], roles) <==>
            c in VisibleChildren(n, t.opts.flattenChoices) && ChildRoles(t, f, c) == Some(roles)
  {
    hide VisibleChildren, ChildRoles;
    assert [c][1..] == [] && Chain(t, c, []);
  }

  lemma MoreStepsGive(t: Setting, f: Filters, n: Node, c: Node, rest: seq<Node>, roles: set<Role>)
    requires rest != []
    ensures GivesRoles(t, f, n, [c] + rest, roles) <==>
            && c in VisibleChildren(n, t.opts.flattenChoices) && ChildRoles(t, f, c).Some?
            && GivesRoles(t, f, c, rest, roles)
  {
    hide VisibleChildren, ChildRoles;
    var steps := [c] + rest;
    assert steps[0] == c && steps[1..] == rest;
    assert forall i :: 0 <= i < |rest| ==> steps[i + 1] == rest[i];
  }

  lemma {:induction false} DescendantsExactly(t: Setting, f: Filters, path: Path, n: Node, g: Grant)
    ensures g in DescendantGrants(t, f, path, n) <==> exists steps :: GivenAlong(t, f, path, n, steps, g)
    decreases Size(n), 1
  {
    hide VisibleChildren, Size, ChildrenGrants, GivenAlong, DescendantGrants;
    DescendantsAreChildren(t, f, path, n);
    var cs := VisibleChildren(n, t.opts.flattenChoices);
    ChildrenExactly(t, f, path, n, cs, g);
    if exists steps :: GivenAlong(t, f, path, n, steps, g) {
      var steps :| GivenAlong(t, f, path, n, steps, g);
      FirstOfSteps(t, f, path, n, steps, g);
    }
  }

  lemma FirstOfSteps(t: Setting, f: Filters, path: Path, n: Node, steps: seq<Node>, g: Grant)
    requires GivenAlong(t, f, path, n, steps, g)
    ensures steps != [] && steps[0] in VisibleChildren(n, t.opts.flattenChoices)
  {
  }

  lemma {:induction false} ChildrenExactly(t: Setting, f: Filters, path: Path, n: Node, cs: seq<Node>, g: Grant)
    requires forall c :: c in cs ==> Size(c) < Size(n) && c in VisibleChildren(n, t.opts.flattenChoices)
    ensures g in ChildrenGrants(t, f, path, cs, Size(n)) <==>
            exists steps :: GivenAlong(t, f, path, n, steps, g) && steps != [] && steps[0] in cs
    decreases Size(n), 0, |cs|
  {
    hide VisibleChildren, Size, GivenAlong, ChildGrants;
    if cs != [] {
      var last := |cs| - 1;
      var c := cs[last];
      ChildrenExactly(t, f, path, n, cs[..last], g);
      ChildExactly(t, f, path, n, c, g);
      assert cs == cs[..last] + [c];
    }
  }

  lemma {:induction false} ChildExactly(t: Setting, f: Filters, path: Path, n: Node, c: Node, g: Grant)
    requires Size(c) < Size(n) && c in VisibleChildren(n, t.opts.flattenChoices)
    ensures g in ChildGrants(t, f, path, c) <==>
            exists steps :: GivenAlong(t, f, path, n, steps, g) && steps != [] && steps[0] == c
    decreases Size(c), 2
  {
    hide VisibleChildren, Size, ChildRoles, NodeGrants, DescendantGrants, GivesRoles;
    DescendantsExactly(t, f, path + [c], c, g);
    if g in ChildGrants(t, f, path, c) {
      var roles := ChildRoles(t, f, c).value;
      OneStepGives(t, f, n, c, roles);
      if g in NodeGrants(t, path + [c], roles) {
        assert GivenAlong(t, f, path, n, [c], g);
      } else {
        var rest :| GivenAlong(t, f, path + [c], c, rest, g);
        var last :| GivesRoles(t, f, c, rest, last) && g in NodeGrants(t, path + [c] + rest, last);
        SomeSteps(t, f, c, rest, last);
        MoreStepsGive(t, f, n, c, rest, last);
        assert path + [c] + rest == path + ([c] + rest);
        assert GivenAlong(t, f, path, n, [c] + rest, g);
      }
    }
    if steps :| GivenAlong(t, f, path, n, steps, g) && steps != [] && steps[0] == c {
      var rest := steps[1..];
      var last :| GivesRoles(t, f, n, steps, last) && g in NodeGrants(t, path + steps, last);
      assert steps == [c] + rest;
      if rest == [] {
        assert steps == [c];
        OneStepGives(t, f, n, c, last);
      } else {
        MoreStepsGive(t, f, n, c, rest, last);
        assert path + [c] + rest == path + steps;
        assert GivenAlong(t, f, path + [c], c, rest, g);
      }
    }
  }

  lemma {:induction false} AncestorsExactly(t: Setting, above: Path, g: Grant)
    ensures g in AncestorGrants(t, above) <==>
            exists k :: 0 < k <= |above| && g in NodeGrants(t, above[..k], {Ancestor})
    decreases |above|
  {
    hide NodeGrants;
    if above != [] {
      var init := above[..|above| - 1];
      AncestorsExactly(t, init, g);
      assert above[..|above|] == above;
      assert forall k :: 0 < k <= |init| ==> init[..k] == above[..k];
    }
  }

  // ---- In terms of the selection

  /** The nodes a target is projected below, from the top: with choices flattened only the data nodes above it. */
  ghost predicate IsBuildPath(t: Setting, target: Path, path: Path)
    requires target != []
    decreases |target|
  {
    path != [] && path[|path| - 1] == target[|target| - 1] && IsAbove(t, target[..|target| - 1], path[..|path| - 1])
  }

  ghost predicate IsAbove(t: Setting, above: Path, path: Path)
    decreases |above|
  {
    if above == [] then path == []
    else
      var last := above[|above| - 1];
      if t.opts.flattenChoices && !last.kind.DataNode? then IsAbove(t, above[..|above| - 1], path)
      else path != [] && path[|path| - 1] == last && IsAbove(t, above[..|above| - 1], path[..|path| - 1])
  }

  lemma {:induction false} DataOnlyLast(path: Path, n: Node)
    ensures DataOnly(path + [n]) == DataOnly(path) + if n.kind.DataNode? then [n] else []
  {
    if path == [] {
      assert path + [n] == [n] && [n][1..] == [];
    } else {
      assert (path + [n])[1..] == path[1..] + [n];
      DataOnlyLast(path[1..], n);
    }
  }

  lemma {:induction false} AboveExactly(t: Setting, above: Path, path: Path)
    ensures IsAbove(t, above, path) <==> path == if t.opts.flattenChoices then DataOnly(above) else above
    decreases |above|
  {
    hide DataOnly;
    if above == [] {
      assert DataOnly([]) == [] by { NoDataOnly(); }
    } else {
      var init, last := above[..|above| - 1], above[|above| - 1];
      assert above == init + [last];
      DataOnlyLast(init, last);
      assert DataOnly(init) + [] == DataOnly(init);
      if t.opts.flattenChoices && !last.kind.DataNode? {
        AboveExactly(t, init, path);
      } else if path != [] {
        AboveExactly(t, init, path[..|path| - 1]);
        assert path == path[..|path| - 1] + [path[|path| - 1]];
      }
    }
  }

  lemma NoDataOnly()
    ensures DataOnly([]) == []
  {
  }

  lemma BuildPathExactly(t: Setting, target: Path, path: Path)
    requires target != []
    ensures IsBuildPath(t, target, path) <==> path == BuildPath(t, target)
  {
    hide DataOnly, IsAbove;
    var above := target[..|target| - 1];
    if path != [] {
      AboveExactly(t, above, path[..|path| - 1]);
      assert path == path[..|path| - 1] + [path[|path| - 1]];
    }
  }

  /**
   The selection i puts a node at p for its own sake, in a role: on the way to its target, at
   the target, or included below it.
   */
  ghost predicate Places(t: Setting, i: Input, p: Path, role: Role)
    requires i.Resolved? ==> TreePath(i.target)
  {
    Contributes(t, i) && exists path :: IsBuildPath(t, i.target, path) && PlacesOn(t, i, path, p, role)
  }

  ghost predicate PlacesOn(t: Setting, i: Input, path: Path, p: Path, role: Role)
    requires i.Resolved? && i.target != [] && t.filters(Target(i)).Some?
  {
    if |p| < |path| then p != [] && p == path[..|p|] && role == Ancestor
    else if |p| == |path| then p == path && TargetRole(t, Target(i), role)
    else
      && p[..|path|] == path && Included(t, t.filters(Target(i)).value, Target(i), p[|path|..])
      && HasRole(t, t.filters(Target(i)).value, p[|p| - 1], role)
  }

  /** A target is selected, and mandatory or a default where the options ask about that. */
  ghost predicate TargetRole(t: Setting, n: Node, role: Role) {
    match role
    case Selected => true
    case Mandatory => t.opts.includeMandatory && n.id in t.attrs.mandatory
    case Default => t.opts.includeDefaults && n.id in t.attrs.defaulted
    case _ => false
  }

  /** p is a list key of the node above it, and keys are asked for. */
  ghost predicate IsKeyAt(t: Setting, p: Path) {
    && t.opts.includeListKeys && |p| > 1
    && var list := p[|p| - 2]; KeysAreChildren(list) && p[|p| - 1] in ListKeys(list)
  }

  /** All that the selection i says about p: a role of its own, or that of a key of a node it places. */
  ghost predicate Says(t: Setting, i: Input, p: Path, role: Role)
    requires i.Resolved? ==> TreePath(i.target)
  {
    || Places(t, i, p, role)
    || (role == Key && IsKeyAt(t, p) && PlacesNode(t, i, p[..|p| - 1]))
  }

  ghost predicate PlacesNode(t: Setting, i: Input, p: Path)
    requires i.Resolved? ==> TreePath(i.target)
  {
    exists role :: Places(t, i, p, role)
  }

  lemma NodeGrantsExactly(t: Setting, p: Path, roles: set<Role>, g: Grant)
    requires p != []
    ensures g in NodeGrants(t, p, roles) <==>
            g == Grant(p, roles) || (IsKeyAt(t, g.path) && g.path[..|g.path| - 1] == p && g.roles == {Key})
  {
    hide ListKeys;
    var n := p[|p| - 1];
    if g in NodeGrants(t, p, roles) && g != Grant(p, roles) {
      assert g in KeyGrants(t, p);
      var keys := ListKeys(n);
      var k :| 0 <= k < |keys| && KeysGranted(p, keys)[k] == g;
      assert g.path[..|g.path| - 1] == p;
    }
    if IsKeyAt(t, g.path) && g.path[..|g.path| - 1] == p && g.roles == {Key} {
      var keys := ListKeys(n);
      assert g.path[|g.path| - 2] == n;
      var k :| 0 <= k < |keys| && keys[k] == g.path[|g.path| - 1];
      assert g.path == p + [keys[k]];
      assert KeysGranted(p, keys)[k] == g;
    }
  }

  /** A grant for the node itself. */
  ghost predicate OwnGrant(t: Setting, i: Input, path: Path, p: Path, roles: set<Role>)
    requires i.Resolved? && i.target != [] && path != [] && t.filters(Target(i)).Some?
  {
    var f, n := t.filters(Target(i)).value, Target(i);
    || (exists k :: 0 < k < |path| && p == path[..k] && roles == {Ancestor})
    || (p == path && roles == {Selected} + SupplementalRoles(t, n, false))
    || (exists steps :: GivesRoles(t, f, n, steps, roles) && p == path + steps)
  }

  ghost predicate Owned(t: Setting, i: Input, path: Path, p: Path)
    requires i.Resolved? && i.target != [] && path != [] && t.filters(Target(i)).Some?
  {
    exists roles :: OwnGrant(t, i, path, p, roles)
  }

  /** The grants of a selection: own ones, and keys of nodes with an own one. */
  lemma SelectionExactly(t: Setting, i: Input, g: Grant)
    requires i.Resolved? && i.target != [] && t.filters(Target(i)).Some?
    ensures BuildPath(t, i.target) != []
    ensures g in SelectionGrants(t, t.filters(Target(i)).value, i.target) <==>
            || OwnGrant(t, i, BuildPath(t, i.target), g.path, g.roles)
            || (IsKeyAt(t, g.path) && g.roles == {Key} && Owned(t, i, BuildPath(t, i.target), g.path[..|g.path| - 1]))
  {
    hide NodeGrants, DescendantGrants, AncestorGrants, SupplementalRoles, IsKeyAt, BuildPath, OwnGrant;
    BuildPathInside(t, i.target);
    KeyAtHasList(t, g.path);
    var f, path := t.filters(Target(i)).value, BuildPath(t, i.target);
    var above := path[..|path| - 1];
    AncestorsExactly(t, above, g);
    DescendantsExactly(t, f, path, Target(i), g);
    if g in SelectionGrants(t, f, i.target) {
      GrantIsOwn(t, i, path, g);
    }
    if OwnGrant(t, i, path, g.path, g.roles) {
      OwnIsGrant(t, i, path, g.path, g.roles, g);
    }
    if IsKeyAt(t, g.path) && g.roles == {Key} && Owned(t, i, path, g.path[..|g.path| - 1]) {
      var above := g.path[..|g.path| - 1];
      var roles :| OwnGrant(t, i, path, above, roles);
      OwnIsGrant(t, i, path, above, roles, g);
    }
  }

  lemma KeyAtHasList(t: Setting, p: Path)
    ensures IsKeyAt(t, p) ==> |p| > 1
  {
  }

  lemma GrantIsOwn(t: Setting, i: Input, path: Path, g: Grant)
    requires i.Resolved? && i.target != [] && t.filters(Target(i)).Some? && path != [] && path == BuildPath(t, i.target)
    requires g in SelectionGrants(t, t.filters(Target(i)).value, i.target)
    ensures || OwnGrant(t, i, path, g.path, g.roles)
            || (IsKeyAt(t, g.path) && g.roles == {Key} && Owned(t, i, path, g.path[..|g.path| - 1]))
  {
    hide NodeGrants, DescendantGrants, AncestorGrants, SupplementalRoles, IsKeyAt, BuildPath, ChildRoles, Chain;
    var f, n := t.filters(Target(i)).value, Target(i);
    var above := path[..|path| - 1];
    AncestorsExactly(t, above, g);
    DescendantsExactly(t, f, path, n, g);
    if g in AncestorGrants(t, above) {
      var k :| 0 < k <= |above| && g in NodeGrants(t, above[..k], {Ancestor});
      assert above[..k] == path[..k];
      NodeGrantsExactly(t, path[..k], {Ancestor}, g);
      assert OwnGrant(t, i, path, path[..k], {Ancestor});
    } else if g in NodeGrants(t, path, {Selected} + SupplementalRoles(t, n, false)) {
      NodeGrantsExactly(t, path, {Selected} + SupplementalRoles(t, n, false), g);
      assert OwnGrant(t, i, path, path, {Selected} + SupplementalRoles(t, n, false));
    } else {
      var steps :| GivenAlong(t, f, path, n, steps, g);
      var roles :| GivesRoles(t, f, n, steps, roles) && g in NodeGrants(t, path + steps, roles);
      NodeGrantsExactly(t, path + steps, roles, g);
      assert OwnGrant(t, i, path, path + steps, roles);
    }
  }

  lemma OwnIsGrant(t: Setting, i: Input, path: Path, p: Path, roles: set<Role>, g: Grant)
    requires i.Resolved? && i.target != [] && t.filters(Target(i)).Some? && path != [] && path == BuildPath(t, i.target)
    requires OwnGrant(t, i, path, p, roles)
    requires g == Grant(p, roles) || (IsKeyAt(t, g.path) && g.path[..|g.path| - 1] == p && g.roles == {Key})
    ensures g in SelectionGrants(t, t.filters(Target(i)).value, i.target)
  {
    hide NodeGrants, DescendantGrants, AncestorGrants, SupplementalRoles, IsKeyAt, BuildPath, ChildRoles, Chain;
    var f, n := t.filters(Target(i)).value, Target(i);
    var above := path[..|path| - 1];
    AncestorsExactly(t, above, g);
    DescendantsExactly(t, f, path, n, g);
    if k :| 0 < k < |path| && p == path[..k] && roles == {Ancestor} {
      assert above[..k] == path[..k];
      NodeGrantsExactly(t, p, roles, g);
    } else if p == path && roles == {Selected} + SupplementalRoles(t, n, false) {
      NodeGrantsExactly(t, p, roles, g);
    } else {
      var steps :| GivesRoles(t, f, n, steps, roles) && p == path + steps;
      NodeGrantsExactly(t, p, roles, g);
      assert GivenAlong(t, f, path, n, steps, g);
    }
  }

  /** An own grant with a role is a place in that role. */
  lemma OwnIsPlace(t: Setting, i: Input, path: Path, p: Path, role: Role)
    requires i.Resolved? && i.target != [] && path != [] && t.filters(Target(i)).Some?
    ensures (exists roles :: OwnGrant(t, i, path, p, roles) && role in roles) <==> PlacesOn(t, i, path, p, role)
  {
    hide GivesRoles, Included, HasRole;
    var f, n := t.filters(Target(i)).value, Target(i);
    if roles :| OwnGrant(t, i, path, p, roles) && role in roles {
      if steps :| GivesRoles(t, f, n, steps, roles) && p == path + steps {
        StepsGiveRole(t, f, n, steps, roles, role);
        assert steps != [] && p[..|path|] == path && p[|path|..] == steps;
      }
    }
    if PlacesOn(t, i, path, p, role) {
      if |p| < |path| {
        assert OwnGrant(t, i, path, p, {Ancestor});
      } else if |p| == |path| {
        assert OwnGrant(t, i, path, p, {Selected} + SupplementalRoles(t, n, false));
      } else {
        var steps := p[|path|..];
        assert p == path + steps;
        var roles := IncludedGives(t, f, n, steps);
        StepsGiveRole(t, f, n, steps, roles, role);
        assert OwnGrant(t, i, path, p, roles);
      }
    }
  }

  lemma StepsGiveRole(t: Setting, f: Filters, n: Node, steps: seq<Node>, roles: set<Role>, role: Role)
    requires GivesRoles(t, f, n, steps, roles)
    ensures steps != [] && Included(t, f, n, steps) && (role in roles <==> HasRole(t, f, steps[|steps| - 1], role))
  {
    hide Included, HasRole, ChildRoles, Chain;
    StepsLeadOn(t, f, n, steps);
    ChildIncluded(t, f, steps[|steps| - 1]);
  }

  lemma IncludedGives(t: Setting, f: Filters, n: Node, steps: seq<Node>) returns (roles: set<Role>)
    requires Included(t, f, n, steps)
    ensures GivesRoles(t, f, n, steps, roles)
  {
    hide Included, ChildRoles, Chain;
    StepsLeadOn(t, f, n, steps);
    assert ChildRoles(t, f, steps[|steps| - 1]).Some?;
    roles := ChildRoles(t, f, steps[|steps| - 1]).value;
  }

  /** Some role is given whenever a node is placed. */
  lemma OwnHasRole(t: Setting, i: Input, path: Path, p: Path, roles: set<Role>)
    requires i.Resolved? && i.target != [] && path != [] && t.filters(Target(i)).Some?
    requires OwnGrant(t, i, path, p, roles)
    ensures roles != {}
  {
    hide GivesRoles, HasRole;
    var f, n := t.filters(Target(i)).value, Target(i);
    if steps :| GivesRoles(t, f, n, steps, roles) && p == path + steps {
      SomeRole(t, f, n, steps, roles);
    } else {
      assert Ancestor in roles || Selected in roles;
    }
  }

  lemma SomeRole(t: Setting, f: Filters, n: Node, steps: seq<Node>, roles: set<Role>)
    requires GivesRoles(t, f, n, steps, roles)
    ensures roles != {}
  {
    hide ChildRoles, Chain;
    var c := steps[|steps| - 1];
    ChildIncluded(t, f, c);
    assert HasRole(t, f, c, Descendant) || HasRole(t, f, c, Mandatory) || HasRole(t, f, c, Default);
  }

  /** What a selection adds is what it says, role by role. */
  lemma InputExactly(t: Setting, i: Input, p: Path, role: Role)
    requires i.Resolved? ==> TreePath(i.target)
    ensures (exists g :: g in InputGrants(t, i) && g.path == p && role in g.roles) <==> Says(t, i, p, role)
  {
    hide TreePath, SelectionGrants, OwnGrant, PlacesOn, IsKeyAt, BuildPath, IsBuildPath;
    if Contributes(t, i) {
      TreePathNodes(i.target);
      GrantsOfInput(t, i);
      var path := BuildPath(t, i.target);
      BuildPathExactly(t, i.target, path);
      KeyAtHasList(t, p);
      PathIsBuildPath(t, i, p, role);
      if g :| g in InputGrants(t, i) && g.path == p && role in g.roles {
        SelectionExactly(t, i, g);
        if OwnGrant(t, i, path, p, g.roles) {
          OwnIsPlace(t, i, path, p, role);
        } else {
          OwnedIsPlaced(t, i, p[..|p| - 1]);
        }
      }
      if Says(t, i, p, role) {
        SelectionNonempty(t, i);
        if Places(t, i, p, role) {
          OwnIsPlace(t, i, path, p, role);
          var roles :| OwnGrant(t, i, path, p, roles) && role in roles;
          SelectionExactly(t, i, Grant(p, roles));
        } else {
          OwnedIsPlaced(t, i, p[..|p| - 1]);
          SelectionExactly(t, i, Grant(p, {Key}));
        }
      }
    }
  }

  lemma SelectionNonempty(t: Setting, i: Input)
    requires i.Resolved? && i.target != []
    ensures BuildPath(t, i.target) != []
  {
  }

  lemma PathIsBuildPath(t: Setting, i: Input, p: Path, role: Role)
    requires i.Resolved? && TreePath(i.target) && Contributes(t, i)
    ensures i.target != [] && (Places(t, i, p, role) <==> PlacesOn(t, i, BuildPath(t, i.target), p, role))
  {
    hide TreePath, PlacesOn, BuildPath, IsBuildPath;
    TreePathNodes(i.target);
    BuildPathExactly(t, i.target, BuildPath(t, i.target));
    forall path | IsBuildPath(t, i.target, path)
      ensures path == BuildPath(t, i.target)
    {
      BuildPathExactly(t, i.target, path);
    }
  }

  lemma OwnedIsPlaced(t: Setting, i: Input, p: Path)
    requires i.Resolved? && TreePath(i.target) && Contributes(t, i)
    ensures i.target != [] && BuildPath(t, i.target) != []
    ensures Owned(t, i, BuildPath(t, i.target), p) <==> PlacesNode(t, i, p)
  {
    hide TreePath, PlacesOn, BuildPath, OwnGrant, Places;
    TreePathNodes(i.target);
    SelectionNonempty(t, i);
    var path := BuildPath(t, i.target);
    if Owned(t, i, path, p) {
      var roles :| OwnGrant(t, i, path, p, roles);
      OwnHasRole(t, i, path, p, roles);
      var role :| role in roles;
      OwnIsPlace(t, i, path, p, role);
      PathIsBuildPath(t, i, p, role);
    }
    if PlacesNode(t, i, p) {
      var role :| Places(t, i, p, role);
      PathIsBuildPath(t, i, p, role);
      OwnIsPlace(t, i, path, p, role);
    }
  }

  // ---- What a projection shows

  /** Going down p from the roots ends at a node with these roles. */
  ghost predicate Occurs(ps: seq<Projected>, p: Path, roles: set<Role>)
    decreases |p|
  {
    p != [] && exists i :: 0 <= i < |ps| && ps[i].node == p[0] && OccursAt(ps[i], p[1..], roles)
  }

  ghost predicate OccursAt(projected: Projected, rest: Path, roles: set<Role>)
    decreases |rest|, 1
  {
    if rest == [] then projected.roles == roles
    else exists i ::
      0 <= i < |projected.children| && projected.children[i].node == rest[0]
      && OccursAt(projected.children[i], rest[1..], roles)
  }

  /** Every node on the way to a build node is one, and order lists them all. */
  ghost predicate Complete(roles: map<Path, set<Role>>, order: seq<Path>) {
    forall p :: p in roles ==> p != [] && p in order && (|p| > 1 ==> p[..|p| - 1] in roles)
  }

  lemma {:induction false} PrefixPresent(roles: map<Path, set<Role>>, order: seq<Path>, p: Path, k: nat)
    requires Complete(roles, order) && p in roles && 0 < k <= |p|
    ensures p[..k] in roles
    decreases |p| - k
  {
    if k == |p| {
      assert p[..k] == p;
    } else {
      PrefixPresent(roles, order, p, k + 1);
      assert p[..k + 1][..k] == p[..k];
    }
  }

  lemma {:induction false} ProjectOccurs(t: Setting, roles: map<Path, set<Role>>, order: seq<Path>, p: Path, rest: Path,
                                         rs: set<Role>)
    requires Complete(roles, order) && p != [] && p in roles
    ensures OccursAt(Project(t, roles, order, p), rest, rs) <==> p + rest in roles && roles[p + rest] == rs
    decreases |rest|
  {
    hide OrderedChildren, ChildrenAt, Complete, Project;
    ProjectedHere(t, roles, order, p);
    if rest == [] {
      assert p + rest == p;
    } else {
      var c := rest[0];
      var projected, cs := Project(t, roles, order, p), OrderedChildren(t, roles.Keys, order, p);
      assert p + rest == p + [c] + rest[1..];
      forall i | 0 <= i < |cs|
        ensures projected.children[i].node == cs[i] && p + [cs[i]] in roles
        ensures projected.children[i] == Project(t, roles, order, p + [cs[i]])
      {
        ProjectedChild(t, roles, order, p, i);
      }
      if p + [c] in roles {
        ProjectOccurs(t, roles, order, p + [c], rest[1..], rs);
        CompleteLists(roles, order, p + [c]);
        Listed(t, roles.Keys, order, p, c);
      }
      if p + rest in roles {
        assert (p + rest)[..|p| + 1] == p + [c];
        PrefixPresent(roles, order, p + rest, |p| + 1);
      }
    }
  }

  lemma CompleteLists(roles: map<Path, set<Role>>, order: seq<Path>, p: Path)
    requires Complete(roles, order) && p in roles
    ensures p != [] && p in order
  {
  }

  lemma ProjectedHere(t: Setting, roles: map<Path, set<Role>>, order: seq<Path>, p: Path)
    requires p != [] && p in roles
    ensures var projected := Project(t, roles, order, p);
            projected.node == p[|p| - 1] && projected.roles == roles[p]
            && |projected.children| == |OrderedChildren(t, roles.Keys, order, p)|
  {
    hide OrderedChildren;
  }

  /** The projection shows exactly the build nodes, each with its roles. */
  lemma RootsOccur(t: Setting, roles: map<Path, set<Role>>, order: seq<Path>, p: Path, rs: set<Role>)
    requires Complete(roles, order)
    ensures Occurs(ProjectRoots(t, roles, order), p, rs) <==> p in roles && roles[p] == rs
  {
    hide RootOrder, Project, Complete, ChildrenAt, OccursAt;
    RootsPresent(t, roles.Keys, order);
    var roots := RootOrder(t, roles.Keys, order);
    var ps := ProjectRoots(t, roles, order);
    forall i | 0 <= i < |roots|
      ensures [roots[i]] in roles && ps[i] == Project(t, roles, order, [roots[i]]) && ps[i].node == roots[i]
    {
      ProjectedHere(t, roles, order, [roots[i]]);
    }
    if p != [] {
      assert p == [p[0]] + p[1..] && [] + [p[0]] == [p[0]];
      if [p[0]] in roles {
        ProjectOccurs(t, roles, order, [p[0]], p[1..], rs);
        CompleteLists(roles, order, [p[0]]);
        Listed(t, roles.Keys, order, [], p[0]);
      }
      if p in roles {
        assert p[..1] == [p[0]];
        PrefixPresent(roles, order, p, 1);
      }
    } else if [] in roles {
      CompleteLists(roles, order, []);
    }
  }

  ghost predicate SaysSome(t: Setting, i: Input, p: Path)
    requires i.Resolved? ==> TreePath(i.target)
  {
    exists role :: Says(t, i, p, role)
  }

  /** Whatever is said about a node, something is said about the node above it. */
  lemma SaysAbove(t: Setting, i: Input, p: Path, role: Role)
    requires i.Resolved? ==> TreePath(i.target)
    requires Says(t, i, p, role)
    ensures p != [] && (|p| > 1 ==> SaysSome(t, i, p[..|p| - 1]))
  {
    hide TreePath, Included, HasRole, IsBuildPath, IsKeyAt;
    KeyAtHasList(t, p);
    if Places(t, i, p, role) {
      ContributesTarget(t, i);
      var path :| IsBuildPath(t, i.target, path) && PlacesOn(t, i, path, p, role);
      BuildPathSome(t, i.target, path);
      if |p| > 1 {
        var q := p[..|p| - 1];
        if |p| <= |path| {
          assert path[..|q|] == q;
          assert PlacesOn(t, i, path, q, Ancestor);
          assert Says(t, i, q, Ancestor);
        } else if |p| == |path| + 1 {
          assert q == path;
          assert PlacesOn(t, i, path, q, Selected);
          assert Says(t, i, q, Selected);
        } else {
          var f, steps := t.filters(Target(i)).value, p[|path|..];
          assert q[|path|..] == steps[..|steps| - 1] && q[..|path|] == path;
          ShorterIncluded(t, f, Target(i), steps);
          var other := IncludedHasRole(t, f, q[|q| - 1]);
          assert PlacesOn(t, i, path, q, other);
          assert Says(t, i, q, other);
        }
      }
    } else {
      var other :| Places(t, i, p[..|p| - 1], other);
      assert Says(t, i, p[..|p| - 1], other);
    }
  }

  lemma BuildPathSome(t: Setting, target: Path, path: Path)
    requires target != [] && IsBuildPath(t, target, path)
    ensures path != []
  {
  }

  lemma ShorterIncluded(t: Setting, f: Filters, n: Node, steps: seq<Node>)
    requires Included(t, f, n, steps) && |steps| > 1
    ensures Included(t, f, n, steps[..|steps| - 1])
  {
    hide LeadsOn;
    var rest :| LeadsOn(t, f, n, steps, rest);
    var shorter, longer := steps[..|steps| - 1], [steps[|steps| - 1]] + rest;
    assert steps + rest == shorter + longer;
    SameLeadsOn(t, f, n, steps, rest, shorter, longer);
  }

  lemma SameLeadsOn(t: Setting, f: Filters, n: Node, a: seq<Node>, b: seq<Node>, c: seq<Node>, d: seq<Node>)
    requires LeadsOn(t, f, n, a, b) && a + b == c + d
    ensures LeadsOn(t, f, n, c, d)
  {
  }

  lemma IncludedHasRole(t: Setting, f: Filters, n: Node) returns (role: Role)
    ensures HasRole(t, f, n, role)
  {
    role := if !Wanted(t, f, n) || t.opts.includeDescendants then Descendant
            else if t.opts.includeMandatory && n.id in t.attrs.mandatory then Mandatory
            else Default;
  }

  /** Some selection says something about p. */
  ghost predicate Said(t: Setting, inputs: set<Input>, p: Path, role: Role)
    requires ValidInputs(inputs)
  {
    exists i :: i in inputs && Says(t, i, p, role)
  }

  lemma SummaryExactly(t: Setting, inputs: set<Input>, p: Path)
    requires ValidInputs(inputs)
    ensures p in RolesOf(t, inputs) <==> exists role :: Said(t, inputs, p, role)
    ensures p in RolesOf(t, inputs) ==> forall role :: role in RolesOf(t, inputs)[p] <==> Said(t, inputs, p, role)
  {
    hide Says, InputGrants, TreePath;
    var grants := GrantsOf(t, inputs);
    forall role
      ensures Said(t, inputs, p, role) <==> exists g :: g in grants && g.path == p && role in g.roles
    {
      if Said(t, inputs, p, role) {
        var i :| i in inputs && Says(t, i, p, role);
        InputExactly(t, i, p, role);
        var g :| g in InputGrants(t, i) && g.path == p && role in g.roles;
        assert g in grants;
      }
      if g :| g in grants && g.path == p && role in g.roles {
        var i :| i in inputs && g in InputGrants(t, i);
        InputExactly(t, i, p, role);
      }
    }
    if p in RolesOf(t, inputs) {
      var g :| g in grants && g.path == p;
      var i :| i in inputs && g in InputGrants(t, i);
      var role := GrantHasRole(t, i, g);
      assert Said(t, inputs, p, role);
    }
  }

  lemma GrantHasRole(t: Setting, i: Input, g: Grant) returns (role: Role)
    requires (i.Resolved? ==> TreePath(i.target)) && g in InputGrants(t, i)
    ensures role in g.roles
  {
    hide TreePath, SelectionGrants, OwnGrant, BuildPath, IsKeyAt;
    TreePathNodes(i.target);
    GrantsOfInput(t, i);
    SelectionExactly(t, i, g);
    if OwnGrant(t, i, BuildPath(t, i.target), g.path, g.roles) {
      OwnHasRole(t, i, BuildPath(t, i.target), g.path, g.roles);
    } else {
      assert Key in g.roles;
    }
    role :| role in g.roles;
  }

  lemma SummaryComplete(t: Setting, inputs: seq<Input>)
    requires ValidInputs(Elements(inputs))
    ensures Complete(RolesOf(t, Elements(inputs)), OrderOf(t, inputs))
  {
    hide Says, RolesOf, OrderOf, TreePath;
    OrderLists(t, inputs);
    var set_ := Elements(inputs);
    forall p | p in RolesOf(t, set_)
      ensures p != [] && p in OrderOf(t, inputs) && (|p| > 1 ==> p[..|p| - 1] in RolesOf(t, set_))
    {
      SummaryExactly(t, set_, p);
      var role :| Said(t, set_, p, role);
      var i :| i in set_ && Says(t, i, p, role);
      SaysAbove(t, i, p, role);
      if |p| > 1 {
        var q := p[..|p| - 1];
        var other :| Says(t, i, q, other);
        assert Said(t, set_, q, other);
        SummaryExactly(t, set_, q);
      }
    }
  }

  /** The path leads to a data node below which the allow and ignore paths resolve. */
  ghost predicate Selectable(t: Setting, i: Input)
    requires i.Resolved? ==> TreePath(i.target)
  {
    i.Resolved? && Target(i).kind.DataNode? && t.filters(Target(i)).Some?
  }

  lemma RefusedOrSelectable(t: Setting, i: Input)
    requires i.Resolved? ==> TreePath(i.target)
    ensures Refusal(t, i).None? <==> Selectable(t, i)
    ensures Refusal(t, i) == Some(PathNotFound) <==> i.Unresolved?
    ensures i.Resolved? ==> i.target != [] && (Refusal(t, i) == Some(NotADataNode) <==> !Target(i).kind.DataNode?)
  {
  }

  /**
   What a projection holds: exactly the nodes some selection says something about, each in
   exactly the roles they say.
   */
  method ProjectedContents(t: Setting, inputs: seq<Input>) returns (r: Result<seq<Projected>, ProjectionError>)
    requires ValidInputs(Elements(inputs))
    ensures r.Ok? <==> forall i :: 0 <= i < |inputs| ==> Selectable(t, inputs[i])
    ensures r.Err? ==>
              exists i ::
                && 0 <= i < |inputs| && !Selectable(t, inputs[i])
                && (forall j :: 0 <= j < i ==> Selectable(t, inputs[j]))
                && (r.error == PathNotFound <==> inputs[i].Unresolved?)
                && (inputs[i].Resolved? ==> (r.error == NotADataNode <==> !Target(inputs[i]).kind.DataNode?))
    ensures r.Ok? ==> forall p, roles :: Occurs(r.value, p, roles) <==>
              && (exists role :: Said(t, Elements(inputs), p, role))
              && forall role :: role in roles <==> Said(t, Elements(inputs), p, role)
  {
    hide Refusal, Selectable, TreePath, RolesOf, Created, AllGrants, ProjectRoots, Said, Occurs, Complete;
    r := ProjectSchemaPaths(t, inputs);
    forall i | 0 <= i < |inputs|
      ensures Refusal(t, inputs[i]).None? <==> Selectable(t, inputs[i])
    {
      assert inputs[i] in Elements(inputs);
      RefusedOrSelectable(t, inputs[i]);
    }
    if r.Err? {
      ghost var i :| 0 <= i < |inputs| && Refusal(t, inputs[i]) == Some(r.error)
                     && forall j :: 0 <= j < i ==> Refusal(t, inputs[j]).None?;
      assert inputs[i] in Elements(inputs);
      RefusedOrSelectable(t, inputs[i]);
    }
    SummaryComplete(t, inputs);
    if r.Ok? {
      forall p, roles
        ensures Occurs(r.value, p, roles) <==>
                && (exists role :: Said(t, Elements(inputs), p, role))
                && forall role :: role in roles <==> Said(t, Elements(inputs), p, role)
      {
        RootsOccur(t, RolesOf(t, Elements(inputs)), OrderOf(t, inputs), p, roles);
        SummaryExactly(t, Elements(inputs), p);
      }
    }
  }

  // ---- Consequences

  /** What an ignore path prunes, it prunes with everything below. */
  ghost predicate ClosedDown(t: Setting, f: Filters) {
    forall n: Node, c: Node :: n.id in f.ignored && c in VisibleChildren(n, t.opts.flattenChoices) ==> c.id in f.ignored
  }

  lemma {:induction false} PrunedBelow(t: Setting, f: Filters, n: Node, steps: seq<Node>)
    requires ClosedDown(t, f) && n.id in f.ignored && Chain(t, n, steps)
    ensures forall i :: 0 <= i < |steps| ==> steps[i].id in f.ignored
    decreases |steps|
  {
    hide VisibleChildren;
    if steps != [] {
      PrunedBelow(t, f, steps[0], steps[1..]);
      assert steps == [steps[0]] + steps[1..];
    }
  }

  /** An ignored node, or state data left out, is not included below a target unless a mandatory node there is saved. */
  lemma PrunedNotIncluded(t: Setting, f: Filters, n: Node, steps: seq<Node>)
    requires !t.opts.protectMandatory && ClosedDown(t, f) && steps != []
    requires steps[|steps| - 1].id in f.ignored || !Kept(t, steps[|steps| - 1])
    ensures !Included(t, f, n, steps)
  {
    hide VisibleChildren, ClosedDown;
    var last := steps[|steps| - 1];
    forall rest
      ensures !LeadsOn(t, f, n, steps, rest)
    {
      var all := steps + rest;
      assert all[|steps| - 1] == last;
      if Chain(t, n, all) && last.id in f.ignored {
        ChainConcat(t, n, steps, rest);
        PrunedBelow(t, f, last, rest);
        assert all[|all| - 1].id in f.ignored;
      }
    }
  }

  /** An ignored node, or state data left out, occurs only as a target, above one, or as a list key. */
  lemma PrunedOnTheWayOnly(t: Setting, i: Input, p: Path, role: Role)
    requires (i.Resolved? ==> TreePath(i.target)) && Says(t, i, p, role) && p != []
    requires Contributes(t, i) && !t.opts.protectMandatory && ClosedDown(t, t.filters(Target(i)).value)
    requires p[|p| - 1].id in t.filters(Target(i)).value.ignored || !Kept(t, p[|p| - 1])
    ensures || (role == Key && IsKeyAt(t, p))
            || exists path :: IsBuildPath(t, i.target, path) && |p| <= |path| && p == path[..|p|]
  {
    hide TreePath, Included, ClosedDown, IsBuildPath, IsKeyAt, HasRole, Kept;
    if Places(t, i, p, role) {
      ContributesTarget(t, i);
      var path :| IsBuildPath(t, i.target, path) && PlacesOn(t, i, path, p, role);
      if |p| > |path| {
        PrunedNotIncluded(t, t.filters(Target(i)).value, Target(i), p[|path|..]);
      }
    }
  }

  /** With descendants asked for, a node that is let through and reached by kept nodes occurs as a descendant. */
  lemma LetThroughOccurs(t: Setting, i: Input, path: Path, steps: seq<Node>)
    requires (i.Resolved? ==> TreePath(i.target)) && Contributes(t, i) && IsBuildPath(t, i.target, path)
    requires t.opts.includeDescendants && steps != [] && Chain(t, Target(i), steps)
    requires LetThrough(t.filters(Target(i)).value, steps[|steps| - 1]) && forall n :: n in steps ==> Kept(t, n)
    ensures Says(t, i, path + steps, Descendant)
  {
    hide Chain, IsBuildPath, Kept;
    var f := t.filters(Target(i)).value;
    assert steps + [] == steps;
    assert LeadsOn(t, f, Target(i), steps, []);
    var p := path + steps;
    assert p[..|path|] == path && p[|path|..] == steps;
    BuildPathSome(t, i.target, path);
    assert PlacesOn(t, i, path, p, Descendant);
    assert Places(t, i, p, Descendant);
  }
}
