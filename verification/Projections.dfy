/** Projections of the schema onto selected paths, and why the order of the selections does not matter. */
module Projections {
  import opened Common
  import opened IrTrees

  datatype Role = Ancestor | Selected | Descendant | Key | Mandatory | Default

  datatype Options = Options(
    includeDescendants: bool, includeListKeys: bool, includeMandatory: bool, protectMandatory: bool,
    includeDefaults: bool, listKeysFirst: bool, flattenChoices: bool, configOnly: bool)

  /** What the projection asks of single nodes. */
  datatype Attributes = Attributes(readOnly: set<NodeId>, mandatory: set<NodeId>, defaulted: set<NodeId>)

  /** The nodes the allow and ignore paths of one selection let through and prune. */
  datatype Filters = Filters(allowed: set<NodeId>, ignored: set<NodeId>)

  /** The schema, the options, and the filters of each possible target; None if they do not resolve below it. */
  datatype Setting = Setting(top: seq<Node>, opts: Options, attrs: Attributes, filters: Node -> Option<Filters>)

  /** A node with the nodes it is reached through. */
  type Path = seq<Node>

  // ---- Which nodes are included

  function VisibleChildren(n: Node, flatten: bool): seq<Node> {
    if flatten then DataChildren(n) else WithoutOperations(n.children)
  }

  function WithoutOperations(ns: seq<Node>): seq<Node> {
    if ns == [] then []
    else if ns[0].kind.Action? || ns[0].kind.Rpc? || ns[0].kind.Notification? then WithoutOperations(ns[1..])
    else [ns[0]] + WithoutOperations(ns[1..])
  }

  predicate ProtectsMandatory(t: Setting, f: Filters, n: Node) {
    && t.opts.protectMandatory && (t.opts.includeMandatory || t.opts.includeDescendants)
    && n.id in t.attrs.mandatory && (n.id in f.ignored || n.id !in f.allowed)
  }

  function SupplementalRoles(t: Setting, n: Node, protectedMandatory: bool): set<Role> {
    (if (t.opts.includeMandatory || protectedMandatory) && n.id in t.attrs.mandatory then {Mandatory} else {})
    + if t.opts.includeDefaults && n.id in t.attrs.defaulted then {Default} else {}
  }

  /** The roles that include n on its own account; None if nothing does. */
  function Inclusion(t: Setting, f: Filters, n: Node): Option<set<Role>> {
    var allowed, protectedMandatory := n.id in f.allowed, ProtectsMandatory(t, f, n);
    if t.opts.configOnly && n.id in t.attrs.readOnly then None
    else if n.id in f.ignored && !protectedMandatory then None
    else if t.opts.includeDescendants && (allowed || protectedMandatory) then
      Some({Descendant} + SupplementalRoles(t, n, protectedMandatory))
    else if t.opts.includeMandatory && n.id in t.attrs.mandatory && (allowed || protectedMandatory) then
      Some(SupplementalRoles(t, n, protectedMandatory))
    else if t.opts.includeDefaults && n.id in t.attrs.defaulted && allowed then Some(SupplementalRoles(t, n, false))
    else None
  }

  predicate HasIncludedDescendant(t: Setting, f: Filters, n: Node)
    decreases Size(n), 1
  {
    !(t.opts.configOnly && n.id in t.attrs.readOnly)
    && var cs := VisibleChildren(n, t.opts.flattenChoices);
       exists i ::
         && 0 <= i < |cs|
         && (Inclusion(t, f, cs[i]).Some? ||
             (VisibleBelow(n, cs[i], t.opts.flattenChoices); HasIncludedDescendant(t, f, cs[i])))
  }

  /** The roles with which a child is included, if only for what lies below it. */
  function ChildRoles(t: Setting, f: Filters, c: Node): Option<set<Role>> {
    var own := Inclusion(t, f, c);
    if own.None? && HasIncludedDescendant(t, f, c) then Some({Descendant}) else own
  }

  lemma VisibleBelow(n: Node, c: Node, flatten: bool)
    ensures c in VisibleChildren(n, flatten) ==> Size(c) < Size(n)
  {
    hide Size, DataChildren, WithoutOperations;
    if c in VisibleChildren(n, flatten) {
      if flatten {
        DataBelow(n, c);
      } else {
        WithoutOperationsInside(n.children, c);
        var k: nat :| k < |n.children| && n.children[k] == c;
        ChildBelow(n, k);
      }
    }
  }

  lemma {:induction false} WithoutOperationsInside(ns: seq<Node>, c: Node)
    requires c in WithoutOperations(ns)
    ensures c in ns
  {
    if c != ns[0] {
      WithoutOperationsInside(ns[1..], c);
    }
  }

  // ---- What a selection contributes

  /** A build node that has to exist, and roles it has to have. */
  datatype Grant = Grant(path: Path, roles: set<Role>)

  function DataOnly(path: Path): Path {
    if path == [] then []
    else if path[0].kind.DataNode? then [path[0]] + DataOnly(path[1..])
    else DataOnly(path[1..])
  }

  /** The build path of a target given by its path in the schema tree. */
  function BuildPath(t: Setting, target: Path): Path
    requires target != []
  {
    var above := target[..|target| - 1];
    (if t.opts.flattenChoices then DataOnly(above) else above) + [target[|target| - 1]]
  }

  function KeysGranted(path: Path, keys: seq<Node>): seq<Grant> {
    seq(|keys|, i requires 0 <= i < |keys| => Grant(path + [keys[i]], {Key}))
  }

  function KeyGrants(t: Setting, path: Path): seq<Grant>
    requires path != []
  {
    var n := path[|path| - 1];
    if !t.opts.includeListKeys || !KeysAreChildren(n) then [] else KeysGranted(path, ListKeys(n))
  }

  /** The build node at path, and its list keys. */
  ghost function NodeGrants(t: Setting, path: Path, roles: set<Role>): seq<Grant>
    requires path != []
  {
    [Grant(path, roles)] + KeyGrants(t, path)
  }

  /** What is included below node n, whose build path is path. */
  ghost function DescendantGrants(t: Setting, f: Filters, path: Path, n: Node): seq<Grant>
    decreases Size(n), 1, 0
  {
    var cs := VisibleChildren(n, t.opts.flattenChoices);
    assert forall c :: c in cs ==> Size(c) < Size(n) by {
      forall c | c in cs {
        VisibleBelow(n, c, t.opts.flattenChoices);
      }
    }
    ChildrenGrants(t, f, path, cs, Size(n))
  }

  ghost function ChildrenGrants(t: Setting, f: Filters, path: Path, cs: seq<Node>, bound: nat): seq<Grant>
    requires forall c :: c in cs ==> Size(c) < bound
    decreases bound, 0, |cs|
  {
    if cs == [] then []
    else
      var last := |cs| - 1;
      ChildrenGrants(t, f, path, cs[..last], bound) + ChildGrants(t, f, path, cs[last])
  }

  ghost function ChildGrants(t: Setting, f: Filters, path: Path, c: Node): seq<Grant>
    decreases Size(c), 2, 0
  {
    match ChildRoles(t, f, c)
    case None => []
    case Some(roles) => NodeGrants(t, path + [c], roles) + DescendantGrants(t, f, path + [c], c)
  }

  ghost function AncestorGrants(t: Setting, path: Path): seq<Grant> {
    if path == [] then []
    else AncestorGrants(t, path[..|path| - 1]) + NodeGrants(t, path, {Ancestor})
  }

  /** Everything one selection asks for, in order, whatever was selected before. */
  ghost function SelectionGrants(t: Setting, f: Filters, target: Path): seq<Grant>
    requires target != []
  {
    var path := BuildPath(t, target);
    var n := target[|target| - 1];
    AncestorGrants(t, path[..|path| - 1])
    + NodeGrants(t, path, {Selected} + SupplementalRoles(t, n, false))
    + DescendantGrants(t, f, path, n)
  }

  function Elements<T(==)>(s: seq<T>): set<T> { set x | x in s }

  /** The roles each build node ends up with. */
  ghost function Summary(grants: set<Grant>): map<Path, set<Role>> {
    var paths := set g | g in grants :: g.path;
    map p | p in paths :: set g, r | g in grants && g.path == p && r in g.roles :: r
  }

  /** The paths granted, each at its first use: the order in which the build nodes are created. */
  ghost function Created(grants: seq<Grant>): seq<Path> {
    if grants == [] then []
    else
      var last := |grants| - 1;
      CreatedNext(Created(grants[..last]), grants[last].path)
  }

  function CreatedNext(order: seq<Path>, p: Path): seq<Path> { if p in order then order else order + [p] }

  // ---- The builder

  /** The build nodes, each under its path, in the order of their creation. */
  class ProjectionBuilder {
    const t: Setting
    var roles: map<Path, set<Role>>
    var order: seq<Path>
    ghost var grants: seq<Grant>

    constructor (t: Setting)
      ensures this.t == t && Valid() && grants == []
    {
      this.t := t;
      roles, order, grants := map[], [], [];
    }

    ghost predicate Valid()
      reads this
    {
      roles == Summary(Elements(grants)) && order == Created(grants) && forall p :: p in order <==> p in roles
    }

    /** The build node at path, created if need be, with these roles added. */
    method Ensure(path: Path, added: set<Role>)
      requires Valid()
      modifies this
      ensures Valid() && grants == old(grants) + [Grant(path, added)]
    {
      hide Summary, Created, Elements;
      ghost var g := Grant(path, added);
      GrantNext(grants, g);
      assert {} + added == added;
      if path in roles {
        roles := roles[path := roles[path] + added];
      } else {
        roles := roles[path := added];
        order := order + [path];
      }
      grants := grants + [g];
    }

    method AddListKeys(path: Path)
      requires Valid() && path != [] && KeysAreChildren(path[|path| - 1])
      modifies this
      ensures Valid() && grants == old(grants) + KeyGrants(t, path)
    {
      hide Summary;
      if !t.opts.includeListKeys {
        assert grants + [] == grants;
        return;
      }
      var keys := ListKeys(path[|path| - 1]);
      var i := 0;
      assert grants + KeysGranted(path, keys[..0]) == grants;
      while i < |keys|
        invariant 0 <= i <= |keys| && Valid()
        invariant grants == old(grants) + KeysGranted(path, keys[..i])
      {
        Ensure(path + [keys[i]], {Key});
        KeysNext(path, keys, i);
        Associates(old(grants), KeysGranted(path, keys[..i]), [Grant(path + [keys[i]], {Key})]);
        i := i + 1;
      }
      assert keys[..i] == keys;
    }

    /** Includes what the filters and options let through below n. */
    method IncludeDescendants(path: Path, n: Node, f: Filters)
      requires Valid() && Sound(n)
      modifies this
      ensures Valid() && grants == old(grants) + DescendantGrants(t, f, path, n)
      decreases Size(n)
    {
      hide Summary, Created, Sound, KeyGrants, Inclusion, HasIncludedDescendant, VisibleChildren, Size,
           DescendantGrants, ChildrenGrants;
      hide SupplementalRoles;
      var cs := VisibleChildren(n, t.opts.flattenChoices);
      VisibleSound(n, t.opts.flattenChoices);
      DescendantsAreChildren(t, f, path, n);
      var i := 0;
      assert cs[..0] == [] && grants + [] == grants;
      assert ChildrenGrants(t, f, path, [], Size(n)) == [] by { NoChildGrants(t, f, path, Size(n)); }
      while i < |cs|
        invariant 0 <= i <= |cs| && Valid()
        invariant grants == old(grants) + ChildrenGrants(t, f, path, cs[..i], Size(n))
      {
        var c := cs[i];
        var included := Inclusion(t, f, c);
        if included.None? && HasIncludedDescendant(t, f, c) {
          included := Some({Descendant});
        }
        NextChildGrants(t, f, path, cs, i, Size(n));
        ghost var before := ChildrenGrants(t, f, path, cs[..i], Size(n));
        if included.Some? {
          Ensure(path + [c], included.value);
          SoundHere(c);
          AddListKeys(path + [c]);
          IncludeDescendants(path + [c], c, f);
          FourParts(old(grants), before, [Grant(path + [c], included.value)], KeyGrants(t, path + [c]),
                    DescendantGrants(t, f, path + [c], c));
        } else {
          assert before + [] == before;
        }
        i := i + 1;
      }
      assert cs[..i] == cs;
    }

    /** Adds a target, the nodes above it, and what is included below it. */
    method AddSelection(target: Path, f: Filters)
      requires Valid() && target != [] && forall n :: n in target ==> Sound(n)
      modifies this
      ensures Valid() && grants == old(grants) + SelectionGrants(t, f, target)
    {
      hide Summary, Sound, KeyGrants, DataOnly, DescendantGrants, SupplementalRoles;
      var path := BuildPath(t, target);
      var n := target[|target| - 1];
      BuildPathInside(t, target);
      var above := path[..|path| - 1];
      var i := 0;
      assert above[..0] == [] && grants + [] == grants;
      while i < |above|
        invariant 0 <= i <= |above| && Valid()
        invariant grants == old(grants) + AncestorGrants(t, above[..i])
      {
        assert above[i] in path && above[..i + 1][..i] == above[..i] && above[..i + 1] != [];
        SoundHere(above[i]);
        Ensure(above[..i + 1], {Ancestor});
        AddListKeys(above[..i + 1]);
        FourParts(old(grants), AncestorGrants(t, above[..i]), [Grant(above[..i + 1], {Ancestor})],
                  KeyGrants(t, above[..i + 1]), []);
        i := i + 1;
      }
      assert above[..i] == above;
      Ensure(path, {Selected} + SupplementalRoles(t, n, false));
      SoundHere(n);
      AddListKeys(path);
      IncludeDescendants(path, n, f);
      FourParts(old(grants), AncestorGrants(t, above), [Grant(path, {Selected} + SupplementalRoles(t, n, false))],
                KeyGrants(t, path), DescendantGrants(t, f, path, n));
    }
  }

  lemma SummaryNext(grants: set<Grant>, g: Grant)
    ensures var before, after := Summary(grants), Summary(grants + {g});
            && after.Keys == before.Keys + {g.path}
            && after == before[g.path := (if g.path in before then before[g.path] else {}) + g.roles]
  {
    var before, after := Summary(grants), Summary(grants + {g});
    var expected := before[g.path := (if g.path in before then before[g.path] else {}) + g.roles];
    assert g in grants + {g} && g.path in after;
    forall p | p in after
      ensures p in expected && after[p] == expected[p]
    {
      SummaryAt(grants, g, p);
    }
    assert forall p :: p in expected ==> p in after;
    assert after.Keys == expected.Keys;
  }

  lemma SummaryAt(grants: set<Grant>, g: Grant, p: Path)
    requires p in Summary(grants + {g})
    ensures p in Summary(grants) || p == g.path
    ensures Summary(grants + {g})[p] ==
              (if p in Summary(grants) then Summary(grants)[p] else {}) + if p == g.path then g.roles else {}
  {
    var before, after := Summary(grants), Summary(grants + {g});
    var expected := (if p in before then before[p] else {}) + if p == g.path then g.roles else {};
    forall r | r in after[p]
      ensures r in expected
    {
      var h :| h in grants + {g} && h.path == p && r in h.roles;
    }
    forall r | r in expected
      ensures r in after[p]
    {
      if p in before && r in before[p] {
        var h :| h in grants && h.path == p && r in h.roles;
        assert h in grants + {g};
      } else {
        assert g in grants + {g};
      }
    }
  }

  lemma KeysNext(path: Path, keys: seq<Node>, i: nat)
    requires i < |keys|
    ensures KeysGranted(path, keys[..i + 1]) == KeysGranted(path, keys[..i]) + [Grant(path + [keys[i]], {Key})]
  {
  }

  lemma Associates<T>(a: seq<T>, b: seq<T>, c: seq<T>)
    ensures (a + b) + c == a + (b + c)
  {
  }

  lemma FourParts<T>(a: seq<T>, b: seq<T>, c: seq<T>, d: seq<T>, e: seq<T>)
    ensures a + b + c + d + e == a + (b + ((c + d) + e)) == a + ((b + (c + d)) + e)
    ensures e == [] ==> a + b + c + d == a + (b + (c + d))
  {
  }

  lemma GrantNext(grants: seq<Grant>, g: Grant)
    ensures Created(grants + [g]) == CreatedNext(Created(grants), g.path)
    ensures var before, after := Summary(Elements(grants)), Summary(Elements(grants + [g]));
            after == before[g.path := (if g.path in before then before[g.path] else {}) + g.roles]
  {
    hide Summary;
    SummaryNext(Elements(grants), g);
    assert Elements(grants + [g]) == Elements(grants) + {g};
    assert (grants + [g])[..|grants|] == grants;
  }

  lemma SoundHere(n: Node)
    requires Sound(n)
    ensures KeysAreChildren(n)
  {
    assert n in Preorder(n);
  }

  lemma VisibleSound(n: Node, flatten: bool)
    requires Sound(n)
    ensures forall c :: c in VisibleChildren(n, flatten) ==> Sound(c) && Size(c) < Size(n)
  {
    hide Sound, Size, DataChildren, WithoutOperations;
    forall c | c in VisibleChildren(n, flatten)
      ensures Sound(c) && Size(c) < Size(n)
    {
      VisibleBelow(n, c, flatten);
      if flatten {
        DataBelow(n, c);
      } else {
        WithoutOperationsInside(n.children, c);
        var k: nat :| k < |n.children| && n.children[k] == c;
        ChildBelow(n, k);
      }
      SoundBelow(n, c);
    }
  }

  lemma NoChildGrants(t: Setting, f: Filters, path: Path, bound: nat)
    ensures ChildrenGrants(t, f, path, [], bound) == []
  {
  }

  lemma NextChildGrants(t: Setting, f: Filters, path: Path, cs: seq<Node>, i: nat, bound: nat)
    requires i < |cs| && forall c :: c in cs ==> Size(c) < bound
    ensures (forall c :: c in cs[..i] ==> Size(c) < bound) && forall c :: c in cs[..i + 1] ==> Size(c) < bound
    ensures ChildrenGrants(t, f, path, cs[..i + 1], bound) ==
              ChildrenGrants(t, f, path, cs[..i], bound) + ChildGrants(t, f, path, cs[i])
  {
    hide Size, ChildGrants;
    assert cs[..i + 1][..i] == cs[..i] && cs[..i + 1][i] == cs[i];
    assert forall c :: c in cs[..i + 1] ==> c in cs;
    assert forall c :: c in cs[..i] ==> c in cs;
  }

  lemma DescendantsAreChildren(t: Setting, f: Filters, path: Path, n: Node)
    ensures forall c :: c in VisibleChildren(n, t.opts.flattenChoices) ==> Size(c) < Size(n)
    ensures DescendantGrants(t, f, path, n) ==
            ChildrenGrants(t, f, path, VisibleChildren(n, t.opts.flattenChoices), Size(n))
  {
    hide Size, VisibleChildren;
    forall c | c in VisibleChildren(n, t.opts.flattenChoices) {
      VisibleBelow(n, c, t.opts.flattenChoices);
    }
  }

  lemma BuildPathInside(t: Setting, target: Path)
    requires target != []
    ensures var path := BuildPath(t, target);
            path != [] && path[|path| - 1] == target[|target| - 1] && forall n :: n in path ==> n in target
  {
    hide DataOnly;
    DataOnlyInside(target[..|target| - 1]);
  }

  lemma {:induction false} DataOnlyInside(path: Path)
    ensures forall n :: n in DataOnly(path) ==> n in path
  {
    if path != [] {
      DataOnlyInside(path[1..]);
    }
  }
}
