/** Projecting a schema onto a list of paths. */
module SchemaPathProjection {
  import opened Common
  import opened IrTrees
  import opened Projections
  import opened ProjectionOrder

  /** What a selected path resolves to: a node, given by its path in the schema tree. */
  datatype Input = Unresolved | Resolved(target: Path)

  datatype ProjectionError = PathNotFound | NotADataNode | FilterNotFound

  /** List keys below are leaves. */
  ghost predicate KeysAreData(n: Node) {
    forall m, k :: m in Preorder(n) && KeysAreChildren(m) && k in ListKeys(m) ==> k.kind.DataNode?
  }

  /** A path through a well-formed schema tree. */
  ghost predicate TreePath(target: Path) {
    && target != []
    && (forall i :: 0 <= i < |target| - 1 ==> target[i + 1] in target[i].children)
    && forall n :: n in target ==> Sound(n) && KeysAreData(n)
  }

  predicate IsOperation(n: Node) { n.kind.Rpc? || n.kind.Action? || n.kind.Notification? || n.kind.OperationIo? }

  /** Below a top-level data node, and below no operation or notification. */
  ghost predicate Plain(t: Setting, target: Path)
    requires target != []
  {
    target[0] in t.top && target[0].kind.DataNode? && forall n :: n in target ==> !IsOperation(n)
  }

  function Target(input: Input): Node
    requires input.Resolved? && input.target != []
  {
    input.target[|input.target| - 1]
  }

  /** Why a selection is refused. */
  ghost function Refusal(t: Setting, input: Input): Option<ProjectionError>
    requires input.Resolved? ==> TreePath(input.target)
  {
    if input.Unresolved? then Some(PathNotFound)
    else if !Target(input).kind.DataNode? then Some(NotADataNode)
    else if t.filters(Target(input)).None? then Some(FilterNotFound)
    else None
  }

  /** What a selection adds; nothing if its target is left out as state data. */
  ghost function InputGrants(t: Setting, input: Input): seq<Grant>
    requires input.Resolved? ==> TreePath(input.target)
  {
    if input.Unresolved? || t.filters(Target(input)).None?
        || (t.opts.configOnly && Target(input).id in t.attrs.readOnly) then []
    else SelectionGrants(t, t.filters(Target(input)).value, input.target)
  }

  ghost predicate ValidInputs(inputs: set<Input>) { forall i :: i in inputs && i.Resolved? ==> TreePath(i.target) }

  /** The roles of all build nodes, whatever the order and repetition of the selections. */
  ghost function RolesOf(t: Setting, inputs: set<Input>): map<Path, set<Role>>
    requires ValidInputs(inputs)
  {
    Summary(GrantsOf(t, inputs))
  }

  ghost function GrantsOf(t: Setting, inputs: set<Input>): set<Grant>
    requires ValidInputs(inputs)
  {
    set i, g | i in inputs && g in InputGrants(t, i) :: g
  }

  /** What a list of selections adds, in order. */
  ghost function AllGrants(t: Setting, inputs: seq<Input>): seq<Grant>
    requires ValidInputs(Elements(inputs))
  {
    if inputs == [] then []
    else
      var last := |inputs| - 1;
      assert inputs[last] in Elements(inputs) && forall i :: i in Elements(inputs[..last]) ==> i in Elements(inputs);
      AllGrants(t, inputs[..last]) + InputGrants(t, inputs[last])
  }

  /** The projection of a list of selections: its build nodes were created in the order of first use. */
  ghost function ProjectionIn(t: Setting, inputs: seq<Input>): seq<Projected>
    requires ValidInputs(Elements(inputs))
  {
    ProjectRoots(t, RolesOf(t, Elements(inputs)), Created(AllGrants(t, inputs)))
  }

  /** The projection of a set of selections in schema order. */
  ghost function ProjectionOf(t: Setting, inputs: set<Input>): seq<Projected>
    requires ValidInputs(inputs)
  {
    ProjectRoots(t, RolesOf(t, inputs), [])
  }

  ghost predicate AllPlain(t: Setting, inputs: set<Input>)
    requires ValidInputs(inputs)
  {
    forall i :: i in inputs && i.Resolved? ==> Plain(t, i.target)
  }

  /**
   Resolves and merges the selections.  It fails exactly when some selection is refused, with
   the error of the first one.  The nodes and roles depend only on which paths are
   selected; so does their order when all targets lie below top-level data nodes and below
   no operation or notification.  In general it also depends on the order in which the
   build nodes came up.
   */
  method ProjectSchemaPaths(t: Setting, inputs: seq<Input>) returns (r: Result<seq<Projected>, ProjectionError>)
    requires ValidInputs(Elements(inputs))
    ensures r.Ok? <==> forall i :: 0 <= i < |inputs| ==> Refusal(t, inputs[i]).None?
    ensures r.Err? ==>
              exists i ::
                && 0 <= i < |inputs| && Refusal(t, inputs[i]) == Some(r.error)
                && forall j :: 0 <= j < i ==> Refusal(t, inputs[j]).None?
    ensures r.Ok? ==> r.value == ProjectionIn(t, inputs)
    ensures r.Ok? && AllPlain(t, Elements(inputs)) ==> r.value == ProjectionOf(t, Elements(inputs))
  {
    hide Summary, Created, TreePath, SelectionGrants, InputGrants, AllGrants, GrantsOf, ProjectRoots, Plain, AllPlain;
    var builder := new ProjectionBuilder(t);
    var i := 0;
    NoGrants(t, inputs);
    while i < |inputs|
      invariant 0 <= i <= |inputs| && builder.Valid() && builder.t == t
      invariant forall j :: 0 <= j < i ==> Refusal(t, inputs[j]).None?
      invariant ValidInputs(Elements(inputs[..i])) && builder.grants == AllGrants(t, inputs[..i])
    {
      var input := inputs[i];
      GrantsNext(t, inputs, i);
      if input.Unresolved? {
        assert Refusal(t, inputs[i]) == Some(PathNotFound);
        return Err(PathNotFound);
      }
      TreePathNodes(input.target);
      var target := Target(input);
      if !target.kind.DataNode? {
        assert Refusal(t, inputs[i]) == Some(NotADataNode);
        return Err(NotADataNode);
      }
      var filters := t.filters(target);
      if filters.None? {
        assert Refusal(t, inputs[i]) == Some(FilterNotFound);
        return Err(FilterNotFound);
      }
      GrantsOfInput(t, input);
      if !(t.opts.configOnly && target.id in t.attrs.readOnly) {
        builder.AddSelection(input.target, filters.value);
      } else {
        assert builder.grants + [] == builder.grants;
      }
      i := i + 1;
    }
    assert inputs[..i] == inputs;
    SameGrants(t, inputs);
    PlainProjection(t, inputs);
    r := Ok(ProjectRoots(t, builder.roles, builder.order));
  }

  lemma GrantsOfInput(t: Setting, input: Input)
    requires input.Resolved? && TreePath(input.target) && t.filters(Target(input)).Some?
    ensures InputGrants(t, input) == if t.opts.configOnly && Target(input).id in t.attrs.readOnly then []
                                     else SelectionGrants(t, t.filters(Target(input)).value, input.target)
  {
  }

  lemma PlainProjection(t: Setting, inputs: seq<Input>)
    requires ValidInputs(Elements(inputs)) && forall i :: 0 <= i < |inputs| ==> Refusal(t, inputs[i]).None?
    ensures AllPlain(t, Elements(inputs)) ==> ProjectionIn(t, inputs) == ProjectionOf(t, Elements(inputs))
  {
    hide Summary, Created, TreePath, AllGrants, GrantsOf, ProjectRoots, AllPlain, AllCovered, Refusal;
    if AllPlain(t, Elements(inputs)) {
      PlainIsCovered(t, Elements(inputs));
      RootsIgnoreOrder(t, RolesOf(t, Elements(inputs)), Created(AllGrants(t, inputs)), []);
    }
  }

  lemma TreePathNodes(target: Path)
    requires TreePath(target)
    ensures target != [] && forall n :: n in target ==> Sound(n)
  {
  }

  lemma NoGrants(t: Setting, inputs: seq<Input>)
    ensures ValidInputs(Elements(inputs[..0])) && AllGrants(t, inputs[..0]) == []
  {
  }

  lemma GrantsNext(t: Setting, inputs: seq<Input>, i: nat)
    requires i < |inputs| && ValidInputs(Elements(inputs))
    ensures ValidInputs(Elements(inputs[..i])) && ValidInputs(Elements(inputs[..i + 1]))
    ensures inputs[i] in Elements(inputs)
    ensures AllGrants(t, inputs[..i + 1]) == AllGrants(t, inputs[..i]) + InputGrants(t, inputs[i])
  {
    hide TreePath, InputGrants;
    assert inputs[..i + 1][..i] == inputs[..i];
    assert forall x :: x in inputs[..i] ==> x in inputs;
  }

  /** The grants in order are the grants of the set. */
  lemma {:induction false} SameGrants(t: Setting, inputs: seq<Input>)
    requires ValidInputs(Elements(inputs))
    ensures Elements(AllGrants(t, inputs)) == GrantsOf(t, Elements(inputs))
  {
    hide TreePath, InputGrants;
    if inputs != [] {
      var last := |inputs| - 1;
      assert inputs == inputs[..last] + [inputs[last]];
      assert Elements(inputs) == Elements(inputs[..last]) + {inputs[last]};
      SameGrants(t, inputs[..last]);
      assert Elements(AllGrants(t, inputs)) ==
             Elements(AllGrants(t, inputs[..last])) + Elements(InputGrants(t, inputs[last]));
      assert GrantsOf(t, Elements(inputs)) ==
             GrantsOf(t, Elements(inputs[..last])) + Elements(InputGrants(t, inputs[last]));
    } else {
      assert Elements(AllGrants(t, inputs)) == {} == GrantsOf(t, Elements(inputs));
    }
  }

  // ---- Plain selections are covered by the schema view

  lemma {:induction false} InFlattened(cs: seq<Node>, c: Node, d: Node)
    requires c in cs && d in FlattenedOne(c)
    ensures d in Flattened(cs)
  {
    hide FlattenedOne;
    if c != cs[0] {
      InFlattened(cs[1..], c, d);
    }
  }

  lemma {:induction false} InWithoutOperations(cs: seq<Node>, c: Node)
    requires c in cs && !IsOperation(c)
    ensures c in WithoutOperations(cs)
  {
    if c != cs[0] {
      InWithoutOperations(cs[1..], c);
    }
  }

  lemma DataIsVisible(n: Node, c: Node, flatten: bool)
    requires c in n.children && c.kind.DataNode?
    ensures c in VisibleChildren(n, flatten)
  {
    hide Flattened, WithoutOperations;
    InFlattened(n.children, c, c);
    InWithoutOperations(n.children, c);
  }

  /** Each node of path is a data child of the one before. */
  ghost predicate DataChain(path: Path) { forall i :: 0 <= i < |path| - 1 ==> path[i + 1] in DataChildren(path[i]) }

  /** The data nodes of a path that enters cs. */
  lemma {:induction false} DataOnlyChain(cs: seq<Node>, path: Path)
    requires path != [] && path[0] in cs && (forall i :: 0 <= i < |path| - 1 ==> path[i + 1] in path[i].children)
    requires (forall n :: n in path ==> !IsOperation(n)) && path[|path| - 1].kind.DataNode?
    ensures var d := DataOnly(path);
            && d != [] && d[0] in Flattened(cs) && DataChain(d) && d[|d| - 1] == path[|path| - 1]
            && (path[0].kind.DataNode? ==> d[0] == path[0])
    decreases path
  {
    hide Flattened, DataChildren;
    var first, rest := path[0], path[1..];
    if first.kind.DataNode? {
      InFlattened(cs, first, first);
      if rest != [] {
        RestIsPath(path);
        DataOnlyChain(first.children, rest);
        ConsChain(first, DataOnly(rest));
      } else {
        assert DataOnly(rest) == [];
      }
    } else {
      assert !IsOperation(first);
      RestIsPath(path);
      DataOnlyChain(first.children, rest);
      FlattenedThrough(first);
      InFlattened(cs, first, DataOnly(rest)[0]);
    }
  }

  lemma RestIsPath(path: Path)
    requires |path| > 1 && (forall i :: 0 <= i < |path| - 1 ==> path[i + 1] in path[i].children)
    ensures path[1..][0] in path[0].children
    ensures forall i :: 0 <= i < |path[1..]| - 1 ==> path[1..][i + 1] in path[1..][i].children
  {
    assert path[0 + 1] in path[0].children;
    forall i | 0 <= i < |path[1..]| - 1
      ensures path[1..][i + 1] in path[1..][i].children
    {
      assert path[i + 1 + 1] in path[i + 1].children;
    }
  }

  lemma ConsChain(n: Node, d: Path)
    requires d != [] && d[0] in Flattened(n.children) && DataChain(d)
    ensures DataChain([n] + d)
  {
    hide Flattened;
    var p := [n] + d;
    forall i | 0 <= i < |p| - 1
      ensures p[i + 1] in DataChildren(p[i])
    {
      if i > 0 {
        assert d[i - 1 + 1] in DataChildren(d[i - 1]);
      }
    }
  }

  lemma FlattenedThrough(n: Node)
    requires n.kind.Choice? || n.kind.Case?
    ensures FlattenedOne(n) == Flattened(n.children)
  {
  }

  lemma {:induction false} DataOnlyAppend(path: Path, n: Node)
    requires n.kind.DataNode?
    ensures DataOnly(path + [n]) == DataOnly(path) + [n]
  {
    if path == [] {
      assert path + [n] == [n] && [n][1..] == [];
    } else {
      assert (path + [n])[1..] == path[1..] + [n];
      DataOnlyAppend(path[1..], n);
    }
  }

  lemma BuildPathCovered(t: Setting, target: Path)
    requires TreePath(target) && Plain(t, target) && target[|target| - 1].kind.DataNode?
    ensures Covered(t, BuildPath(t, target))
  {
    hide Flattened, WithoutOperations, DataOnly, Sound, KeysAreData;
    var last := |target| - 1;
    assert target == target[..last] + [target[last]];
    if t.opts.flattenChoices {
      DataOnlyAppend(target[..last], target[last]);
      DataOnlyChain([target[0]], target);
      var d := DataOnly(target);
      assert d == BuildPath(t, target);
    } else {
      assert BuildPath(t, target) == target;
      forall i | 0 <= i < |target| - 1
        ensures target[i + 1] in VisibleChildren(target[i], false)
      {
        InWithoutOperations(target[i].children, target[i + 1]);
      }
    }
  }

  lemma CoveredPrefix(t: Setting, p: Path, k: nat)
    requires Covered(t, p) && 0 < k <= |p|
    ensures Covered(t, p[..k])
  {
    hide VisibleChildren;
    forall i | 0 <= i < |p[..k]| - 1
      ensures p[..k][i + 1] in VisibleChildren(p[..k][i], t.opts.flattenChoices)
    {
      assert p[i + 1] in VisibleChildren(p[i], t.opts.flattenChoices);
    }
  }

  /** q continues p through visible children. */
  ghost predicate VisiblyBelow(t: Setting, p: Path, q: Path) {
    && p != [] && |p| <= |q| && q[..|p|] == p
    && forall i :: |p| - 1 <= i < |q| - 1 ==> q[i + 1] in VisibleChildren(q[i], t.opts.flattenChoices)
  }

  lemma BelowCovered(t: Setting, p: Path, q: Path)
    requires Covered(t, p) && VisiblyBelow(t, p, q)
    ensures Covered(t, q)
  {
    hide VisibleChildren;
    forall i | 0 <= i < |q| - 1
      ensures q[i + 1] in VisibleChildren(q[i], t.opts.flattenChoices)
    {
      if i < |p| - 1 {
        assert p[i] == q[i] && p[i + 1] == q[i + 1];
        assert p[i + 1] in VisibleChildren(p[i], t.opts.flattenChoices);
      }
    }
  }

  lemma BelowChild(t: Setting, p: Path, c: Node, q: Path)
    requires p != [] && c in VisibleChildren(p[|p| - 1], t.opts.flattenChoices) && VisiblyBelow(t, p + [c], q)
    ensures VisiblyBelow(t, p, q)
  {
    hide VisibleChildren;
    assert q[..|p|] == q[..|p| + 1][..|p|];
    assert q[|p| - 1] == p[|p| - 1] && q[|p|] == q[..|p| + 1][|p|] == c;
  }

  lemma VisibleChildBelow(t: Setting, p: Path, c: Node)
    requires p != [] && c in VisibleChildren(p[|p| - 1], t.opts.flattenChoices)
    ensures VisiblyBelow(t, p, p + [c])
  {
    hide VisibleChildren;
    var q := p + [c];
    assert q[..|p|] == p && q[|p| - 1] == p[|p| - 1] && q[|p|] == c;
  }

  lemma NodeGrantsBelow(t: Setting, p: Path, roles: set<Role>, g: Grant)
    requires p != [] && KeysAreData(p[|p| - 1]) && g in NodeGrants(t, p, roles)
    ensures VisiblyBelow(t, p, g.path)
  {
    hide VisibleChildren, ListKeys, KeysAreData;
    if g != Grant(p, roles) {
      assert g in KeyGrants(t, p);
      var n := p[|p| - 1];
      var keys := ListKeys(n);
      var i :| 0 <= i < |keys| && KeysGranted(p, keys)[i] == g;
      KeyIsVisible(t, n, keys[i]);
      VisibleChildBelow(t, p, keys[i]);
    }
  }

  lemma KeyIsVisible(t: Setting, n: Node, k: Node)
    requires KeysAreData(n) && KeysAreChildren(n) && k in ListKeys(n)
    ensures k in VisibleChildren(n, t.opts.flattenChoices)
  {
    hide VisibleChildren;
    assert n in Preorder(n) && k.kind.DataNode?;
    assert k in n.children;
    DataIsVisible(n, k, t.opts.flattenChoices);
  }

  lemma KeysDataBelow(n: Node, c: Node, flatten: bool)
    requires Sound(n) && KeysAreData(n) && c in VisibleChildren(n, flatten)
    ensures Sound(c) && KeysAreData(c) && Size(c) < Size(n)
  {
    hide Sound, Size, DataChildren, WithoutOperations, Preorder, ListKeys;
    VisibleSound(n, flatten);
    assert c in PreorderAll(n.children) by {
      if flatten {
        DataBelow(n, c);
      } else {
        WithoutOperationsInside(n.children, c);
        var k: nat :| k < |n.children| && n.children[k] == c;
        ChildBelow(n, k);
      }
    }
    forall m | m in Preorder(c)
      ensures m in Preorder(n)
    {
      PreorderTransitive(n.children, c, m);
      PreorderOf(n);
    }
  }

  lemma PreorderOf(n: Node)
    ensures Preorder(n) == [n] + PreorderAll(n.children)
  {
  }

  lemma {:induction false} DescendantsBelow(t: Setting, f: Filters, p: Path, n: Node, g: Grant)
    requires p != [] && p[|p| - 1] == n && Sound(n) && KeysAreData(n) && g in DescendantGrants(t, f, p, n)
    ensures VisiblyBelow(t, p, g.path)
    decreases Size(n), 1, 0
  {
    hide VisiblyBelow, Sound, KeysAreData, VisibleChildren, Size, ChildrenGrants, DescendantGrants;
    DescendantsAreChildren(t, f, p, n);
    ChildrenBelow(t, f, p, n, VisibleChildren(n, t.opts.flattenChoices), g);
  }

  lemma {:induction false} ChildrenBelow(t: Setting, f: Filters, p: Path, n: Node, cs: seq<Node>, g: Grant)
    requires p != [] && p[|p| - 1] == n && Sound(n) && KeysAreData(n)
    requires (forall c :: c in cs ==> Size(c) < Size(n) && c in VisibleChildren(n, t.opts.flattenChoices))
    requires g in ChildrenGrants(t, f, p, cs, Size(n))
    ensures VisiblyBelow(t, p, g.path)
    decreases Size(n), 0, |cs|
  {
    hide VisiblyBelow, Sound, KeysAreData, VisibleChildren, Size, DescendantGrants, NodeGrants, ChildRoles;
    var last := |cs| - 1;
    if g in ChildrenGrants(t, f, p, cs[..last], Size(n)) {
      ChildrenBelow(t, f, p, n, cs[..last], g);
    } else {
      var c := cs[last];
      KeysDataBelow(n, c, t.opts.flattenChoices);
      var roles := ChildRoles(t, f, c).value;
      if g in NodeGrants(t, p + [c], roles) {
        NodeGrantsBelow(t, p + [c], roles, g);
      } else {
        DescendantsBelow(t, f, p + [c], c, g);
      }
      BelowChild(t, p, c, g.path);
    }
  }

  lemma {:induction false} AncestorsBelow(t: Setting, p: Path, g: Grant) returns (k: nat)
    requires (forall n :: n in p ==> KeysAreData(n)) && g in AncestorGrants(t, p)
    ensures 0 < k <= |p| && VisiblyBelow(t, p[..k], g.path)
    decreases |p|
  {
    hide VisiblyBelow, KeysAreData, NodeGrants;
    k := |p|;
    if g in AncestorGrants(t, p[..k - 1]) {
      k := AncestorsBelow(t, p[..k - 1], g);
      assert p[..|p| - 1][..k] == p[..k];
    } else {
      NodeGrantsBelow(t, p, {Ancestor}, g);
      assert p[..k] == p;
    }
  }

  /** A selection's build nodes lie on its build path, or below a node of it through visible children. */
  lemma SelectionBelow(t: Setting, f: Filters, target: Path, g: Grant) returns (k: nat)
    requires TreePath(target) && g in SelectionGrants(t, f, target)
    ensures 0 < k <= |BuildPath(t, target)| && VisiblyBelow(t, BuildPath(t, target)[..k], g.path)
  {
    hide VisiblyBelow, Sound, KeysAreData, NodeGrants, DescendantGrants, AncestorGrants, BuildPath;
    var path := BuildPath(t, target);
    var n := target[|target| - 1];
    BuildPathInside(t, target);
    var above := path[..|path| - 1];
    var roles := {Selected} + SupplementalRoles(t, n, false);
    if g in AncestorGrants(t, above) {
      k := AncestorsBelow(t, above, g);
      assert above[..k] == path[..k];
    } else {
      k := |path|;
      assert path[..k] == path;
      if g in NodeGrants(t, path, roles) {
        NodeGrantsBelow(t, path, roles, g);
      } else {
        DescendantsBelow(t, f, path, n, g);
      }
    }
  }

  lemma {:induction false} PlainIsCovered(t: Setting, inputs: set<Input>)
    requires ValidInputs(inputs) && AllPlain(t, inputs)
    requires forall i :: i in inputs ==> Refusal(t, i).None?
    ensures AllCovered(t, RolesOf(t, inputs).Keys)
  {
    hide Covered, SelectionGrants, TreePath, Plain, BuildPath, VisiblyBelow;
    forall p | p in RolesOf(t, inputs)
      ensures Covered(t, p)
    {
      var g :| g in GrantsOf(t, inputs) && g.path == p;
      var i :| i in inputs && g in InputGrants(t, i);
      assert !i.Unresolved?;
      TreePathNodes(i.target);
      var k := SelectionBelow(t, t.filters(Target(i)).value, i.target, g);
      BuildPathCovered(t, i.target);
      CoveredPrefix(t, BuildPath(t, i.target), k);
      BelowCovered(t, BuildPath(t, i.target)[..k], g.path);
    }
  }
}
