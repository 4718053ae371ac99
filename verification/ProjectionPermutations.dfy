/**
 When the order of the selections shows in a projection.  Nodes that the schema view does
 not list below their parent keep the order in which they came up, so the input order shows
 exactly when two selected paths part there.
 */
module ProjectionPermutations {
  import opened Common
  import opened IrTrees
  import opened Projections
  import opened ProjectionOrder
  import opened SchemaPathProjection

  /** Neither a top-level data node nor a visible child of the node it stands below. */
  ghost predicate Hidden(t: Setting, p: Path, c: Node) {
    if p == [] then c !in t.top else c !in VisibleChildren(p[|p| - 1], t.opts.flattenChoices)
  }

  /** Up to position k the paths are the same; there they part between hidden nodes. */
  ghost predicate PartHidden(t: Setting, p: Path, q: Path, k: nat) {
    && k < |p| && k < |q| && p[..k] == q[..k] && p[k] != q[k]
    && Hidden(t, p[..k], p[k]) && Hidden(t, q[..k], q[k])
  }

  /** A selection that adds something. */
  ghost predicate Contributes(t: Setting, i: Input)
    requires i.Resolved? ==> TreePath(i.target)
  {
    i.Resolved? && t.filters(Target(i)).Some? && !(t.opts.configOnly && Target(i).id in t.attrs.readOnly)
  }

  lemma ContributesTarget(t: Setting, i: Input)
    requires (i.Resolved? ==> TreePath(i.target)) && Contributes(t, i)
    ensures i.Resolved? && i.target != []
  {
  }

  ghost predicate Parting(t: Setting, i: Input, j: Input, k: nat)
    requires (i.Resolved? ==> TreePath(i.target)) && (j.Resolved? ==> TreePath(j.target))
  {
    Contributes(t, i) && Contributes(t, j) && PartHidden(t, BuildPath(t, i.target), BuildPath(t, j.target), k)
  }

  /** No two selections part between hidden nodes. */
  ghost predicate OrderFree(t: Setting, inputs: set<Input>)
    requires ValidInputs(inputs)
  {
    forall i, j, k :: i in inputs && j in inputs ==> !Parting(t, i, j, k)
  }

  // ---- Hidden build nodes lie on build paths

  lemma LastStepVisible(t: Setting, p: Path, q: Path)
    requires VisiblyBelow(t, p, q)
    ensures |p| <= |q| && q[..|p|] == p
    ensures |p| < |q| ==> !Hidden(t, q[..|q| - 1], q[|q| - 1])
  {
    hide VisibleChildren;
    var last := |q| - 2;
    if |p| < |q| {
      assert q[last + 1] in VisibleChildren(q[last], t.opts.flattenChoices);
    }
  }

  lemma HiddenOnBuildPath(t: Setting, i: Input, p: Path, c: Node, g: Grant)
    requires (i.Resolved? ==> TreePath(i.target)) && g in InputGrants(t, i) && g.path == p + [c] && Hidden(t, p, c)
    ensures Contributes(t, i)
    ensures var path := BuildPath(t, i.target); |p| < |path| && path[..|p|] == p && path[|p|] == c
  {
    hide TreePath, SelectionGrants, VisibleChildren, BuildPath, Hidden, VisiblyBelow;
    assert Contributes(t, i) by { assert i.Resolved?; }
    TreePathNodes(i.target);
    var path := BuildPath(t, i.target);
    var n := SelectionBelow(t, t.filters(Target(i)).value, i.target, g);
    LastStepVisible(t, path[..n], g.path);
    assert g.path[..|p|] == p && g.path[|p|] == c;
    assert n == |p| + 1 && g.path[..n] == g.path;
    assert path[..n] == p + [c];
    assert path[..|p|] == path[..n][..|p|] == p && path[|p|] == path[..n][|p|] == c;
  }

  lemma {:induction false} AncestorsGranted(t: Setting, p: Path, k: nat) returns (g: Grant)
    requires 0 < k <= |p|
    ensures g in AncestorGrants(t, p) && g.path == p[..k]
    decreases |p|
  {
    hide KeyGrants;
    if k == |p| {
      g := Grant(p, {Ancestor});
      assert p[..k] == p && g in NodeGrants(t, p, {Ancestor});
    } else {
      g := AncestorsGranted(t, p[..|p| - 1], k);
      assert p[..|p| - 1][..k] == p[..k];
    }
  }

  lemma BuildPathGranted(t: Setting, i: Input, k: nat) returns (g: Grant)
    requires (i.Resolved? ==> TreePath(i.target)) && Contributes(t, i) && 0 < k <= |BuildPath(t, i.target)|
    ensures g in InputGrants(t, i) && g.path == BuildPath(t, i.target)[..k]
  {
    hide TreePath, KeyGrants, BuildPath, DescendantGrants, AncestorGrants, SupplementalRoles;
    TreePathNodes(i.target);
    var path := BuildPath(t, i.target);
    var above := path[..|path| - 1];
    if k == |path| {
      var roles := {Selected} + SupplementalRoles(t, Target(i), false);
      g := Grant(path, roles);
      assert path[..k] == path && g in NodeGrants(t, path, roles);
    } else {
      g := AncestorsGranted(t, above, k);
      assert above[..k] == path[..k];
    }
    GrantsOfInput(t, i);
  }

  // ---- The creation order

  lemma {:induction false} CreatedLists(grants: seq<Grant>)
    ensures forall p :: p in Created(grants) <==> p in Summary(Elements(grants))
    ensures forall g :: g in grants ==> g.path in Created(grants)
  {
    if grants != [] {
      var last := |grants| - 1;
      assert grants == grants[..last] + [grants[last]];
      CreatedLists(grants[..last]);
    }
  }

  lemma {:induction false} CreatedExtends(a: seq<Grant>, b: seq<Grant>)
    ensures Created(a) <= Created(a + b)
    decreases |b|
  {
    if b == [] {
      assert a + b == a;
    } else {
      var last := |b| - 1;
      assert (a + b)[..|a| + last] == a + b[..last];
      CreatedExtends(a, b[..last]);
    }
  }

  lemma {:induction false} AllGrantsConcat(t: Setting, a: seq<Input>, b: seq<Input>)
    requires ValidInputs(Elements(a)) && ValidInputs(Elements(b)) && ValidInputs(Elements(a + b))
    ensures AllGrants(t, a + b) == AllGrants(t, a) + AllGrants(t, b)
    decreases |b|
  {
    hide TreePath, InputGrants;
    if b == [] {
      assert a + b == a && AllGrants(t, a) + [] == AllGrants(t, a);
    } else {
      var last := |b| - 1;
      assert (a + b)[..|a| + last] == a + b[..last] && (a + b)[|a| + last] == b[last];
      assert forall i :: i in b[..last] ==> i in b;
      assert forall i :: i in a + b[..last] ==> i in a + b;
      AllGrantsConcat(t, a, b[..last]);
      Associates(AllGrants(t, a), AllGrants(t, b[..last]), InputGrants(t, b[last]));
    }
  }

  lemma {:induction false} InChildOrder(order: seq<Path>, p: Path, c: Node)
    ensures c in ChildOrder(order, p) <==> p + [c] in order
  {
    if order != [] {
      InChildOrder(order[1..], p, c);
      var q := order[0];
      if |q| == |p| + 1 && q[..|p|] == p {
        assert q == p + [q[|p|]];
        assert (p + [c])[|p|] == c;
      } else {
        assert (p + [c])[..|p|] == p;
      }
    }
  }

  lemma {:induction false} ChildOrderConcat(a: seq<Path>, b: seq<Path>, p: Path)
    ensures ChildOrder(a + b, p) == ChildOrder(a, p) + ChildOrder(b, p)
  {
    if a == [] {
      assert a + b == b;
    } else {
      assert (a + b)[1..] == a[1..] + b;
      ChildOrderConcat(a[1..], b, p);
    }
  }

  /** The build nodes of a list of selections, in the order of their creation. */
  ghost function OrderOf(t: Setting, inputs: seq<Input>): seq<Path>
    requires ValidInputs(Elements(inputs))
  {
    Created(AllGrants(t, inputs))
  }

  lemma OrderLists(t: Setting, inputs: seq<Input>)
    requires ValidInputs(Elements(inputs))
    ensures forall p :: p in OrderOf(t, inputs) <==> p in RolesOf(t, Elements(inputs))
  {
    hide Created, Summary, AllGrants, GrantsOf, ValidInputs;
    CreatedLists(AllGrants(t, inputs));
    SameGrants(t, inputs);
  }

  // ---- Children in schema order, and the hidden ones after them

  ghost function SchemaAt(t: Setting, present: set<Path>, p: Path): seq<Node> {
    if p == [] then PresentTop(t.top, present) else InSchemaOrder(t, present, p)
  }

  lemma ChildrenAtAre(t: Setting, present: set<Path>, order: seq<Path>, p: Path)
    ensures ChildrenAt(t, present, order, p) == AppendPresent(present, p, SchemaAt(t, present, p), ChildOrder(order, p))
  {
  }

  lemma NotInSchemaIsHidden(t: Setting, present: set<Path>, p: Path, c: Node)
    requires p + [c] in present && c !in SchemaAt(t, present, p)
    ensures Hidden(t, p, c)
  {
    hide PresentTop, InSchemaOrder, VisibleChildren;
    if p == [] {
      assert p + [c] == [c];
      TopPresent(t.top, present);
    } else {
      SchemaPresent(t, present, p);
    }
  }

  lemma {:induction false} AppendedFrom(present: set<Path>, p: Path, out: seq<Node>, cs: seq<Node>, c: Node)
    requires c in AppendPresent(present, p, out, cs)
    ensures c in out || c in cs
    decreases cs
  {
    if cs != [] {
      if cs[0] !in out && p + [cs[0]] in present {
        AppendedFrom(present, p, out + [cs[0]], cs[1..], c);
      } else {
        AppendedFrom(present, p, out, cs[1..], c);
      }
    }
  }

  lemma HiddenNotInSchema(t: Setting, present: set<Path>, p: Path, c: Node)
    requires Hidden(t, p, c) && forall n :: n in p ==> KeysAreData(n)
    ensures c !in SchemaAt(t, present, p)
  {
    hide PresentTop, AppendPresent, VisibleChildren, KeysAreData, ListKeys;
    if c in SchemaAt(t, present, p) {
      if p == [] {
        TopPresent(t.top, present);
      } else {
        var n := p[|p| - 1];
        var keys :=
          if t.opts.listKeysFirst && KeysAreChildren(n) then AppendPresent(present, p, [], ListKeys(n)) else [];
        AppendedFrom(present, p, keys, VisibleChildren(n, t.opts.flattenChoices), c);
        AppendedFrom(present, p, [], ListKeys(n), c);
        KeyIsVisible(t, n, c);
      }
    }
  }

  lemma {:induction false} AppendOne(present: set<Path>, p: Path, out: seq<Node>, cs: seq<Node>, h: Node)
    requires p + [h] in present && h !in out && forall c :: p + [c] in present && c !in out ==> c == h
    ensures AppendPresent(present, p, out, cs) == if h in cs then out + [h] else out
    decreases cs
  {
    if cs != [] {
      if cs[0] == h {
        NothingToAppend(present, p, out + [h], cs[1..]);
      } else {
        AppendOne(present, p, out, cs[1..], h);
      }
    }
  }

  lemma {:induction false} AppendInTurn(present: set<Path>, p: Path, out: seq<Node>, a: seq<Node>, b: seq<Node>)
    ensures AppendPresent(present, p, out, a + b) == AppendPresent(present, p, AppendPresent(present, p, out, a), b)
    decreases a
  {
    if a == [] {
      assert a + b == b;
    } else {
      assert (a + b)[1..] == a[1..] + b;
      AppendInTurn(present, p, if a[0] !in out && p + [a[0]] in present then out + [a[0]] else out, a[1..], b);
    }
  }

  lemma {:induction false} AppendExtends(present: set<Path>, p: Path, out: seq<Node>, cs: seq<Node>)
    ensures out <= AppendPresent(present, p, out, cs)
    decreases cs
  {
    if cs != [] {
      AppendExtends(present, p, if cs[0] !in out && p + [cs[0]] in present then out + [cs[0]] else out, cs[1..]);
    }
  }

  // ---- Without a parting the order does not show

  lemma OneHidden(t: Setting, inputs: set<Input>, p: Path, c: Node, d: Node)
    requires ValidInputs(inputs) && OrderFree(t, inputs)
    requires p + [c] in RolesOf(t, inputs) && p + [d] in RolesOf(t, inputs) && Hidden(t, p, c) && Hidden(t, p, d)
    ensures c == d
  {
    hide TreePath, InputGrants, BuildPath, Hidden, Contributes;
    var g :| g in GrantsOf(t, inputs) && g.path == p + [c];
    var i :| i in inputs && g in InputGrants(t, i);
    HiddenOnBuildPath(t, i, p, c, g);
    var h :| h in GrantsOf(t, inputs) && h.path == p + [d];
    var j :| j in inputs && h in InputGrants(t, j);
    HiddenOnBuildPath(t, j, p, d, h);
    assert !Parting(t, i, j, |p|);
  }

  lemma SameChildrenAt(t: Setting, inputs: set<Input>, a: seq<Path>, b: seq<Path>, p: Path)
    requires ValidInputs(inputs) && OrderFree(t, inputs)
    requires forall q :: (q in a <==> q in RolesOf(t, inputs)) && (q in b <==> q in RolesOf(t, inputs))
    ensures ChildrenAt(t, RolesOf(t, inputs).Keys, a, p) == ChildrenAt(t, RolesOf(t, inputs).Keys, b, p)
  {
    hide RolesOf, OrderFree, ValidInputs, AppendPresent, ChildOrder, ChildrenAt, SchemaAt, Hidden;
    var present := RolesOf(t, inputs).Keys;
    ChildrenAtAre(t, present, a, p);
    ChildrenAtAre(t, present, b, p);
    var out, xs, ys := SchemaAt(t, present, p), ChildOrder(a, p), ChildOrder(b, p);
    if h :| p + [h] in present && h !in out {
      NotInSchemaIsHidden(t, present, p, h);
      forall c | p + [c] in present && c !in out
        ensures c == h
      {
        NotInSchemaIsHidden(t, present, p, c);
        OneHidden(t, inputs, p, c, h);
      }
      InChildOrder(a, p, h);
      InChildOrder(b, p, h);
      AppendOne(present, p, out, xs, h);
      AppendOne(present, p, out, ys, h);
    } else {
      NothingToAppend(present, p, out, xs);
      NothingToAppend(present, p, out, ys);
    }
  }

  lemma OrderFreeSuffices(t: Setting, a: seq<Input>, b: seq<Input>)
    requires ValidInputs(Elements(a)) && Elements(a) == Elements(b) && OrderFree(t, Elements(a))
    ensures ProjectionIn(t, a) == ProjectionIn(t, b)
  {
    hide RolesOf, OrderFree, ValidInputs, ChildrenAt, ProjectRoots, Created, AllGrants, Elements;
    OrderLists(t, a);
    OrderLists(t, b);
    var roles := RolesOf(t, Elements(a));
    forall p
      ensures ChildrenAt(t, roles.Keys, OrderOf(t, a), p) == ChildrenAt(t, roles.Keys, OrderOf(t, b), p)
    {
      SameChildrenAt(t, Elements(a), OrderOf(t, a), OrderOf(t, b), p);
    }
    SameChildrenSuffice(t, roles, OrderOf(t, a), OrderOf(t, b));
  }

  // ---- A parting shows the order

  /** The hidden node of the earlier of two selections comes first. */
  lemma EarlierFirst(t: Setting, i: Input, j: Input, rest: seq<Input>, k: nat) returns (n: nat)
    requires ValidInputs(Elements([i, j] + rest)) && ValidInputs({i, j}) && Parting(t, i, j, k)
    ensures var p, q, inputs := BuildPath(t, i.target), BuildPath(t, j.target), [i, j] + rest;
            var cs := ChildrenAt(t, RolesOf(t, Elements(inputs)).Keys, OrderOf(t, inputs), p[..k]);
            n <= |cs| && p[k] in cs[..n] && q[k] !in cs[..n]
  {
    hide RolesOf, AllGrants, InputGrants, Created, AppendPresent, ChildOrder, ChildrenAt, SchemaAt, Hidden, Contributes,
         BuildPath, TreePath;
    ContributesTarget(t, i);
    ContributesTarget(t, j);
    var p, q, inputs := BuildPath(t, i.target), BuildPath(t, j.target), [i, j] + rest;
    var present, order, at := RolesOf(t, Elements(inputs)).Keys, OrderOf(t, inputs), p[..k];
    var c, d := p[k], q[k];
    assert p[..k + 1] == at + [c];
    var first := FirstCreated(t, i, [j] + rest, c, d, k);
    assert [i] + ([j] + rest) == inputs;
    assert order == first + order[|first|..];
    ChildOrderConcat(first, order[|first|..], at);
    var out, xs := SchemaAt(t, present, at), ChildOrder(first, at);
    AppendInTurn(present, at, out, xs, ChildOrder(order[|first|..], at));
    AppendExtends(present, at, AppendPresent(present, at, out, xs), ChildOrder(order[|first|..], at));
    ChildrenAtAre(t, present, order, at);
    n := |AppendPresent(present, at, out, xs)|;
    OrderLists(t, inputs);
    InChildOrder(first, at, c);
    InChildOrder(first, at, d);
    SchemaAtPresent(t, present, at);
    AppendedPresent(present, at, out, xs);
    BuildPathKeys(t, i);
    HiddenNotInSchema(t, present, at, d);
    if d in AppendPresent(present, at, out, xs) {
      AppendedFrom(present, at, out, xs, d);
    }
  }

  lemma SchemaAtPresent(t: Setting, present: set<Path>, p: Path)
    ensures forall c :: c in SchemaAt(t, present, p) ==> p + [c] in present
  {
    hide PresentTop, InSchemaOrder;
    if p == [] {
      TopPresent(t.top, present);
      assert forall c: Node :: p + [c] == [c];
    } else {
      SchemaPresent(t, present, p);
    }
  }

  lemma BuildPathKeys(t: Setting, i: Input)
    requires i.Resolved? && TreePath(i.target)
    ensures forall n :: n in BuildPath(t, i.target) ==> KeysAreData(n)
  {
    hide KeysAreData, BuildPath, Sound;
    BuildPathInside(t, i.target);
  }

  /** The build nodes of the first selection come first; those right below its build path are on it or visible. */
  lemma FirstCreated(t: Setting, i: Input, rest: seq<Input>, c: Node, d: Node, k: nat) returns (first: seq<Path>)
    requires ValidInputs(Elements([i] + rest)) && ValidInputs({i}) && Contributes(t, i)
    requires var p := BuildPath(t, i.target); k < |p| && p[k] == c && c != d && Hidden(t, p[..k], d)
    ensures first <= OrderOf(t, [i] + rest)
    ensures BuildPath(t, i.target)[..k + 1] in first && BuildPath(t, i.target)[..k] + [d] !in first
  {
    hide InputGrants, Hidden, Contributes, BuildPath, TreePath;
    ContributesTarget(t, i);
    var p := BuildPath(t, i.target);
    assert Elements([i]) == {i} && forall x :: x in rest ==> x in [i] + rest;
    AllGrantsConcat(t, [i], rest);
    OneInput(t, i);
    CreatedExtends(InputGrants(t, i), AllGrants(t, rest));
    first := Created(InputGrants(t, i));
    var g := BuildPathGranted(t, i, k + 1);
    CreatedLists(InputGrants(t, i));
    if p[..k] + [d] in first {
      var h :| h in InputGrants(t, i) && h.path == p[..k] + [d];
      HiddenOnBuildPath(t, i, p[..k], d, h);
    }
  }

  lemma OneInput(t: Setting, i: Input)
    requires ValidInputs(Elements([i])) && ValidInputs({i})
    ensures AllGrants(t, [i]) == InputGrants(t, i)
  {
    hide InputGrants;
    assert [i][..0] == [];
    assert AllGrants(t, [i]) == [] + InputGrants(t, i);
  }

  /** Equal projections list the same children below every node on a path of build nodes. */
  lemma {:induction false} SameProjectedAt(t: Setting, roles: map<Path, set<Role>>, a: seq<Path>, b: seq<Path>, p: Path,
                                           k: nat)
    requires ProjectRoots(t, roles, a) == ProjectRoots(t, roles, b)
    requires 0 < k <= |p| && forall m :: 0 < m <= k ==> p[..m] in roles && p[..m] in a
    ensures Project(t, roles, a, p[..k]) == Project(t, roles, b, p[..k])
    decreases k
  {
    hide Project, ChildOrder, AppendPresent, ChildrenAt, PresentTop, InSchemaOrder;
    var q, c := p[..k - 1], p[k - 1];
    assert p[..k] == q + [c];
    if k == 1 {
      assert q == [] && q + [c] == [c];
      SameRoots(t, roles, a, b);
      Listed(t, roles.Keys, a, q, c);
      var i :| 0 <= i < |RootOrder(t, roles.Keys, a)| && RootOrder(t, roles.Keys, a)[i] == c;
      RootsPresent(t, roles.Keys, a);
      assert ProjectRoots(t, roles, a)[i] == ProjectRoots(t, roles, b)[i];
    } else {
      SameProjectedAt(t, roles, a, b, p, k - 1);
      SameProjectedChildren(t, roles, a, b, q);
      Listed(t, roles.Keys, a, q, c);
      var i :| 0 <= i < |OrderedChildren(t, roles.Keys, a, q)| && OrderedChildren(t, roles.Keys, a, q)[i] == c;
      ProjectedChild(t, roles, a, q, i);
      ProjectedChild(t, roles, b, q, i);
    }
  }

  lemma Listed(t: Setting, present: set<Path>, order: seq<Path>, p: Path, c: Node)
    requires p + [c] in present && p + [c] in order
    ensures c in ChildrenAt(t, present, order, p)
    ensures p == [] ==> c in RootOrder(t, present, order)
    ensures p != [] ==> c in OrderedChildren(t, present, order, p)
  {
    hide AppendPresent, SchemaAt;
    ChildrenAtAre(t, present, order, p);
    SchemaAtPresent(t, present, p);
    InChildOrder(order, p, c);
    AppendedPresent(present, p, SchemaAt(t, present, p), ChildOrder(order, p));
  }

  lemma SameRoots(t: Setting, roles: map<Path, set<Role>>, a: seq<Path>, b: seq<Path>)
    requires ProjectRoots(t, roles, a) == ProjectRoots(t, roles, b)
    ensures RootOrder(t, roles.Keys, a) == RootOrder(t, roles.Keys, b)
  {
    hide RootOrder;
    var xs, ys := RootOrder(t, roles.Keys, a), RootOrder(t, roles.Keys, b);
    assert |xs| == |ProjectRoots(t, roles, a)| == |ys|;
    forall i | 0 <= i < |xs|
      ensures xs[i] == ys[i]
    {
      assert ProjectRoots(t, roles, a)[i].node == xs[i];
      assert ProjectRoots(t, roles, b)[i].node == ys[i];
    }
  }

  lemma ProjectedChild(t: Setting, roles: map<Path, set<Role>>, order: seq<Path>, p: Path, i: nat)
    requires p != [] && p in roles && i < |OrderedChildren(t, roles.Keys, order, p)|
    ensures |Project(t, roles, order, p).children| == |OrderedChildren(t, roles.Keys, order, p)|
    ensures var q := p + [OrderedChildren(t, roles.Keys, order, p)[i]];
            q in roles && Project(t, roles, order, p).children[i] == Project(t, roles, order, q)
    ensures Project(t, roles, order, p).children[i].node == OrderedChildren(t, roles.Keys, order, p)[i]
  {
    hide OrderedChildren;
    OrderedPresent(t, roles.Keys, order, p);
  }

  lemma SameProjectedChildren(t: Setting, roles: map<Path, set<Role>>, a: seq<Path>, b: seq<Path>, p: Path)
    requires p != [] && p in roles && Project(t, roles, a, p) == Project(t, roles, b, p)
    ensures OrderedChildren(t, roles.Keys, a, p) == OrderedChildren(t, roles.Keys, b, p)
  {
    var xs, ys := OrderedChildren(t, roles.Keys, a, p), OrderedChildren(t, roles.Keys, b, p);
    assert |xs| == |Project(t, roles, a, p).children| && |ys| == |Project(t, roles, b, p).children|;
    hide OrderedChildren, Project;
    forall i | 0 <= i < |xs|
      ensures xs[i] == ys[i]
    {
      ProjectedChild(t, roles, a, p, i);
      ProjectedChild(t, roles, b, p, i);
    }
  }

  /** Two selections that part between hidden nodes give different projections in the two orders. */
  lemma PartingShows(t: Setting, i: Input, j: Input, rest: seq<Input>, k: nat)
    requires ValidInputs(Elements([i, j] + rest)) && ValidInputs(Elements([j, i] + rest)) && ValidInputs({i, j})
    requires Parting(t, i, j, k)
    ensures ProjectionIn(t, [i, j] + rest) != ProjectionIn(t, [j, i] + rest)
  {
    hide RolesOf, ChildrenAt, ProjectRoots, Hidden, Contributes, BuildPath, TreePath, Created, AllGrants, InputGrants,
         Project;
    ContributesTarget(t, i);
    ContributesTarget(t, j);
    var a, b, p, q := [i, j] + rest, [j, i] + rest, BuildPath(t, i.target), BuildPath(t, j.target);
    assert Elements(a) == Elements(b);
    assert p[..k] == q[..k];
    var n := EarlierFirst(t, i, j, rest, k);
    var m := EarlierFirst(t, j, i, rest, k);
    if ProjectionIn(t, a) == ProjectionIn(t, b) {
      var roles := RolesOf(t, Elements(a));
      OrderLists(t, a);
      forall l | 0 < l <= k
        ensures p[..l] in roles && p[..l] in OrderOf(t, a)
      {
        BuildPathPresent(t, i, [j] + rest, l);
        assert [i] + ([j] + rest) == a;
      }
      SameListed(t, roles, OrderOf(t, a), OrderOf(t, b), p, k);
      assert false;
    }
  }

  lemma BuildPathPresent(t: Setting, i: Input, rest: seq<Input>, m: nat)
    requires ValidInputs(Elements([i] + rest)) && ValidInputs({i}) && Contributes(t, i)
             && 0 < m <= |BuildPath(t, i.target)|
    ensures BuildPath(t, i.target)[..m] in OrderOf(t, [i] + rest)
  {
    hide InputGrants, Contributes, BuildPath, TreePath;
    assert Elements([i]) == {i} && forall x :: x in rest ==> x in [i] + rest;
    AllGrantsConcat(t, [i], rest);
    OneInput(t, i);
    var g := BuildPathGranted(t, i, m);
    CreatedLists(InputGrants(t, i) + AllGrants(t, rest));
  }

  lemma SameListed(t: Setting, roles: map<Path, set<Role>>, a: seq<Path>, b: seq<Path>, p: Path, k: nat)
    requires ProjectRoots(t, roles, a) == ProjectRoots(t, roles, b)
    requires k <= |p| && forall m :: 0 < m <= k ==> p[..m] in roles && p[..m] in a
    ensures ChildrenAt(t, roles.Keys, a, p[..k]) == ChildrenAt(t, roles.Keys, b, p[..k])
  {
    hide Project, ProjectRoots, RootOrder, OrderedChildren;
    if k == 0 {
      SameRoots(t, roles, a, b);
    } else {
      SameProjectedAt(t, roles, a, b, p, k);
      SameProjectedChildren(t, roles, a, b, p[..k]);
    }
  }

  /** Every listing of the same selections gives the same projection if and only if no two part between hidden nodes. */
  lemma OrderDecided(t: Setting, inputs: seq<Input>)
    requires ValidInputs(Elements(inputs))
    ensures OrderFree(t, Elements(inputs)) <==>
            forall other: seq<Input> :: Elements(other) == Elements(inputs) ==>
                ProjectionIn(t, other) == ProjectionIn(t, inputs)
  {
    hide ProjectionIn, Parting, TreePath;
    if OrderFree(t, Elements(inputs)) {
      forall other: seq<Input> | Elements(other) == Elements(inputs)
        ensures ProjectionIn(t, other) == ProjectionIn(t, inputs)
      {
        OrderFreeSuffices(t, other, inputs);
      }
    } else {
      var i, j, k :| i in Elements(inputs) && j in Elements(inputs) && Parting(t, i, j, k);
      var a, b := [i, j] + inputs, [j, i] + inputs;
      assert Elements(a) == Elements(inputs) && Elements(b) == Elements(inputs);
      PartingShows(t, i, j, inputs, k);
      assert ProjectionIn(t, a) != ProjectionIn(t, b);
    }
  }

  // ---- Calls

  /** Targets below top-level data nodes and below no operation or notification never part between hidden nodes. */
  lemma PlainIsOrderFree(t: Setting, inputs: set<Input>)
    requires ValidInputs(inputs) && AllPlain(t, inputs) && forall i :: i in inputs ==> Refusal(t, i).None?
    ensures OrderFree(t, inputs)
  {
    hide TreePath, BuildPath, Plain, Covered;
    forall i, j, k | i in inputs && j in inputs
      ensures !Parting(t, i, j, k)
    {
      if Parting(t, i, j, k) {
        TreePathNodes(i.target);
        BuildPathCovered(t, i.target);
        CoveredNotHidden(t, BuildPath(t, i.target), k);
      }
    }
  }

  lemma CoveredNotHidden(t: Setting, p: Path, k: nat)
    requires Covered(t, p) && k < |p|
    ensures !Hidden(t, p[..k], p[k])
  {
    hide VisibleChildren;
    if k > 0 {
      assert p[k - 1 + 1] in VisibleChildren(p[k - 1], t.opts.flattenChoices);
    }
  }

  /** Any permutation or repetition of selections that do not part so gives the same projection. */
  method SelectionOrderDoesNotMatter(t: Setting, a: seq<Input>, b: seq<Input>)
    returns (x: Result<seq<Projected>, ProjectionError>, y: Result<seq<Projected>, ProjectionError>)
    requires ValidInputs(Elements(a)) && Elements(a) == Elements(b) && OrderFree(t, Elements(a))
    ensures x.Ok? <==> y.Ok?
    ensures x.Ok? ==> x == y
  {
    hide Refusal, OrderFree, ValidInputs, ProjectionIn;
    x := ProjectSchemaPaths(t, a);
    y := ProjectSchemaPaths(t, b);
    SameRefusals(t, a, b);
    SameRefusals(t, b, a);
    OrderFreeSuffices(t, a, b);
  }

  lemma SameRefusals(t: Setting, a: seq<Input>, b: seq<Input>)
    requires ValidInputs(Elements(a)) && Elements(a) == Elements(b)
    ensures (forall i :: 0 <= i < |a| ==> Refusal(t, a[i]).None?) ==>
            forall i :: 0 <= i < |b| ==> Refusal(t, b[i]).None?
  {
    hide Refusal, TreePath;
    forall i | 0 <= i < |b|
      ensures exists j :: 0 <= j < |a| && a[j] == b[i]
    {
      assert b[i] in Elements(b);
      assert b[i] in Elements(a);
    }
  }

  function Leaf(id: NodeId): Node { Node(id, DataNode, [], []) }

  /** A module without top-level data nodes, no node left out. */
  function Unfiltered(opts: Options): Setting { Setting([], opts, Attributes({}, {}, {}), _ => Some(Filters({}, {}))) }

  /** A leaf of an operation's input. */
  function InputLeaf(id: NodeId): Input {
    var io := Node(1, OperationIo, [Leaf(2), Leaf(3)], []);
    Resolved([Node(0, Rpc, [io], []), io, Leaf(id)])
  }

  /** Two leaves of one operation's input, choices flattened: the projection lists them as they were selected. */
  method OperationInputsKeepInputOrder(opts: Options)
    returns (x: Result<seq<Projected>, ProjectionError>, y: Result<seq<Projected>, ProjectionError>)
    requires opts.flattenChoices
    ensures x.Ok? && y.Ok? && x.value != y.value
  {
    hide PartHidden, AllGrants, RolesOf, Created, ProjectRoots;
    var t := Unfiltered(opts);
    var a, b := InputLeaf(2), InputLeaf(3);
    InputLeafIsTreePath(2);
    InputLeafIsTreePath(3);
    assert [a, b] + [] == [a, b] && [b, a] + [] == [b, a];
    x := ProjectSchemaPaths(t, [a, b]);
    y := ProjectSchemaPaths(t, [b, a]);
    InputLeavesPart(opts);
    PartingShows(t, a, b, [], 0);
  }

  lemma InputLeafIsTreePath(id: NodeId)
    requires id in {2, 3}
    ensures TreePath(InputLeaf(id).target)
  {
    var io := Node(1, OperationIo, [Leaf(2), Leaf(3)], []);
    var rpc := Node(0, Rpc, [io], []);
    assert io.children[id - 2] == Leaf(id) && rpc.children[0] == io;
    InputPreorders(io, rpc);
    NoKeys(io);
    NoKeys(rpc);
    NoKeys(Leaf(id));
  }

  lemma InputPreorders(io: Node, rpc: Node)
    requires io == Node(1, OperationIo, [Leaf(2), Leaf(3)], []) && rpc == Node(0, Rpc, [io], [])
    ensures Preorder(io) == [io, Leaf(2), Leaf(3)] && Preorder(rpc) == [rpc, io, Leaf(2), Leaf(3)]
  {
    assert [Leaf(2), Leaf(3)][1..] == [Leaf(3)] && [Leaf(3)][1..] == [] && [io][1..] == [];
    assert Preorder(Leaf(2)) == [Leaf(2)] && Preorder(Leaf(3)) == [Leaf(3)];
    assert PreorderAll([Leaf(3)]) == [Leaf(3)];
    assert PreorderAll([Leaf(2), Leaf(3)]) == [Leaf(2), Leaf(3)];
    assert Preorder(io) == [io, Leaf(2), Leaf(3)];
    assert PreorderAll([io]) == [io, Leaf(2), Leaf(3)];
  }

  /** Nodes that are not lists have no keys to go wrong. */
  lemma NoKeys(n: Node)
    requires forall m :: m in Preorder(n) ==> m.keys == []
    ensures Sound(n) && KeysAreData(n)
  {
  }

  lemma InputLeavesPart(opts: Options)
    requires opts.flattenChoices && TreePath(InputLeaf(2).target) && TreePath(InputLeaf(3).target)
    ensures Parting(Unfiltered(opts), InputLeaf(2), InputLeaf(3), 0)
  {
    hide TreePath;
    InputLeafBuildPath(opts, 2);
    InputLeafBuildPath(opts, 3);
  }

  lemma InputLeafBuildPath(opts: Options, id: NodeId)
    requires opts.flattenChoices
    ensures BuildPath(Unfiltered(opts), InputLeaf(id).target) == [Leaf(id)]
  {
    var target := InputLeaf(id).target;
    assert target[..2][1..] == [target[1]] && [target[1]][1..] == [];
    assert DataOnly([target[1]]) == [] && DataOnly(target[..2]) == [];
  }
}
