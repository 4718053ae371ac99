/** Counting the records of the nested projection without building it, and building it only within a limit. */
module IrCounts {
  import opened Common
  import opened IrTrees
  import opened IrTable

  function Saturated(n: nat): nat { if n < MAX_UINT64 then n else MAX_UINT64 }

  function SaturatingAdd(a: nat, b: nat): (r: nat)
    requires a <= MAX_UINT64 && b <= MAX_UINT64
    ensures r <= MAX_UINT64
  {
    if a > MAX_UINT64 - b then MAX_UINT64 else a + b
  }

  lemma SaturatingSum(a: nat, b: nat)
    ensures SaturatingAdd(Saturated(a), Saturated(b)) == Saturated(a + b)
  {
  }

  /** The records the nested projection of all modules holds. */
  function CountModules(modules: seq<seq<Nested>>): nat {
    if modules == [] then 0 else CountModules(modules[..|modules| - 1]) + CountAll(modules[|modules| - 1])
  }

  /** Nodes with their own identity, together with everything their views show. */
  ghost predicate ClosedUniverse(u: set<Node>) {
    && (forall n :: n in u ==> Sound(n) && forall m :: m in Preorder(n) ==> m in u)
    && forall a, b :: a in u && b in u && a.id == b.id ==> a == b
  }

  lemma ViewsInUniverse(u: set<Node>, n: Node)
    requires ClosedUniverse(u) && n in u
    ensures Sound(n) && KeysAreChildren(n)
    ensures forall c :: c in n.children ==> c in u && Size(c) < Size(n)
    ensures forall c :: c in DataChildren(n) ==> c in u && Size(c) < Size(n)
    ensures forall c :: c in ListKeys(n) ==> c in u && Size(c) < Size(n)
  {
    hide PreorderAll, DataChildren, Flattened, Sound, Size;
    SoundItself(n);
    forall c | c in n.children
      ensures c in u && Size(c) < Size(n)
    {
      var k: nat :| k < |n.children| && n.children[k] == c;
      ChildBelow(n, k);
    }
    forall c | c in DataChildren(n)
      ensures c in u && Size(c) < Size(n)
    {
      DataBelow(n, c);
    }
    forall c | c in ListKeys(n)
      ensures c in u && Size(c) < Size(n)
    {
      var k: nat :| k < |n.keys| && n.children[n.keys[k]] == c;
      ChildBelow(n, n.keys[k]);
    }
  }

  class V1Counter {
    var memo: map<NodeId, nat>
    ghost const universe: set<Node>

    constructor (ghost universe: set<Node>)
      requires ClosedUniverse(universe)
      ensures this.universe == universe && Valid()
    {
      memo := map[];
      this.universe := universe;
    }

    /** The memo holds the saturated counts of the nodes it knows. */
    ghost predicate Valid()
      reads this
    {
      && ClosedUniverse(universe)
      && forall n :: n in universe && n.id in memo ==> memo[n.id] == Saturated(Count(NestedOf(n)))
    }

    /** The records the nested projection of ref would take, or the greatest value if that does not fit. */
    method V1Records(ref: Node) returns (total: nat)
      requires Valid() && ref in universe
      modifies this`memo
      ensures Valid() && Sound(ref) && total == Saturated(Count(NestedOf(ref)))
      decreases Size(ref), 0
    {
      hide ClosedUniverse, Count, NestedOf, DataChildren, ListKeys, Sound, CountAll, Saturated, KeysAreChildren, Size;
      ViewsInUniverse(universe, ref);
      if ref.id in memo {
        return memo[ref.id];
      }
      NestedViews(ref);
      ghost var nested := NestedOf(ref);
      total := 1;
      CountParts(nested);
      total := AddView(ref, ref.children, total, nested.children, 1);
      total := AddView(ref, DataChildren(ref), total, nested.dataChildren, 1 + CountAll(nested.children));
      total := AddView(ref, ListKeys(ref), total, nested.listKeys,
                       1 + CountAll(nested.children) + CountAll(nested.dataChildren));
      MemoStays(universe, memo, ref, total);
      memo := memo[ref.id := total];
    }

    /** Adds the counts of one view of ref to total. */
    method AddView(ghost ref: Node, view: seq<Node>, total: nat, ghost copies: seq<Nested>, ghost exact: nat)
      returns (r: nat)
      requires Valid() && ref in universe && total == Saturated(exact)
      requires forall c :: c in view ==> c in universe && Size(c) < Size(ref)
      requires |copies| == |view| && forall k :: 0 <= k < |view| ==> Sound(view[k]) && copies[k] == NestedOf(view[k])
      modifies this`memo
      ensures Valid() && r == Saturated(exact + CountAll(copies))
      decreases Size(ref), 0, 0
    {
      hide ClosedUniverse, Count, NestedOf, Sound, Saturated, Size;
      r := total;
      var k := 0;
      while k < |view|
        invariant 0 <= k <= |view| && Valid()
        invariant r == Saturated(exact + CountAll(copies[..k]))
      {
        var n := V1Records(view[k]);
        CountAllNext(copies, k);
        SaturatingSum(exact + CountAll(copies[..k]), Count(copies[k]));
        SaturatedFits(exact + CountAll(copies[..k]));
        SaturatedFits(Count(copies[k]));
        r := SaturatingAdd(r, n);
        k := k + 1;
      }
      assert copies[..k] == copies;
    }
  }

  lemma SaturatedFits(n: nat)
    ensures Saturated(n) <= MAX_UINT64
  {
  }

  lemma CountParts(n: Nested)
    ensures Count(n) == 1 + CountAll(n.children) + CountAll(n.dataChildren) + CountAll(n.listKeys)
    ensures Saturated(1) == 1
  {
  }

  lemma MemoStays(u: set<Node>, memo: map<NodeId, nat>, ref: Node, total: nat)
    requires ClosedUniverse(u) && ref in u
    requires forall n :: n in u && n.id in memo ==> memo[n.id] == Saturated(Count(NestedOf(n)))
    requires total == Saturated(Count(NestedOf(ref)))
    ensures var after := memo[ref.id := total];
            forall n :: n in u && n.id in after ==> after[n.id] == Saturated(Count(NestedOf(n)))
  {
    hide Count, NestedOf, Sound, Saturated, Preorder;
  }

  lemma ForestIsUniverse(modules: seq<seq<Node>>)
    requires ValidForest(modules)
    ensures ClosedUniverse(set m | m in AllNodes(modules))
    ensures forall m, k :: 0 <= m < |modules| && 0 <= k < |modules[m]| ==>
            modules[m][k] in AllNodes(modules) && Sound(modules[m][k])
  {
    hide PreorderAll, KeysAreChildren, Concat;
    var all := AllNodes(modules);
    forall n, m | n in all && m in Preorder(n)
      ensures m in all
    {
      PreorderTransitive(Concat(modules), n, m);
    }
    forall a, b | a in all && b in all && a.id == b.id
      ensures a == b
    {
      var i: nat :| i < |all| && all[i] == a;
      var j: nat :| j < |all| && all[j] == b;
      assert i == j;
    }
    forall m, k | 0 <= m < |modules| && 0 <= k < |modules[m]|
      ensures modules[m][k] in all
    {
      TopInAll(modules, m, k);
    }
  }

  lemma TopInAll(modules: seq<seq<Node>>, m: nat, k: nat)
    requires m < |modules| && k < |modules[m]|
    ensures modules[m][k] in AllNodes(modules)
  {
    hide PreorderAll, Concat;
    ConcatNext(modules, m);
    PrefixOfAll(modules, m + 1);
    InPreorderAll(modules[m], k, modules[m][k]);
    var part := PreorderAll(modules[m]);
    var i: nat :| i < |part| && part[i] == modules[m][k];
    assert AllNodes(modules)[|AllNodes(modules[..m])| + i] == part[i];
  }

  /** The nested projection of all modules. */
  ghost predicate Projects(modules: seq<seq<Node>>, nested: seq<seq<Nested>>) {
    && |nested| == |modules|
    && forall m :: 0 <= m < |modules| ==> ProjectsModule(modules[m], nested[m])
  }

  ghost predicate ProjectsModule(ns: seq<Node>, nested: seq<Nested>) {
    |nested| == |ns| && forall k :: 0 <= k < |ns| ==> Sound(ns[k]) && nested[k] == NestedOf(ns[k])
  }

  method SchemaIR(modules: seq<seq<Node>>) returns (nested: seq<seq<Nested>>)
    requires ValidForest(modules)
    ensures Projects(modules, nested)
  {
    hide ValidForest, Sound, NestedOf, AllNodes;
    ForestIsUniverse(modules);
    nested := [];
    var m := 0;
    while m < |modules|
      invariant 0 <= m <= |modules| && |nested| == m
      invariant forall i :: 0 <= i < m ==> ProjectsModule(modules[i], nested[i])
    {
      var out := SchemaIRModule(modules[m]);
      nested := nested + [out];
      m := m + 1;
    }
  }

  method SchemaIRModule(children: seq<Node>) returns (out: seq<Nested>)
    requires forall k :: 0 <= k < |children| ==> Sound(children[k])
    ensures ProjectsModule(children, out)
  {
    hide Sound, NestedOf;
    out := [];
    var k := 0;
    while k < |children|
      invariant 0 <= k <= |children| && |out| == k
      invariant forall i :: 0 <= i < k ==> out[i] == NestedOf(children[i])
    {
      var copy := SchemaIRNode(children[k]);
      out := out + [copy];
      k := k + 1;
    }
  }

  /** A node with full copies of its three views, built view by view. */
  method SchemaIRNode(ref: Node) returns (out: Nested)
    requires Sound(ref)
    ensures out == NestedOf(ref)
    decreases Size(ref), 1
  {
    hide Sound, NestedOf, DataChildren, ListKeys, Size;
    NestedViews(ref);
    ViewsBelowSize(ref);
    var children := CopyView(ref, ref.children);
    var data := CopyView(ref, DataChildren(ref));
    var keys := CopyView(ref, ListKeys(ref));
    out := Nested(ref.id, ref.kind, children, data, keys);
    SameNested(out, NestedOf(ref));
  }

  method CopyView(ghost ref: Node, view: seq<Node>) returns (copies: seq<Nested>)
    requires forall k :: 0 <= k < |view| ==> Sound(view[k]) && Size(view[k]) < Size(ref)
    ensures |copies| == |view| && forall k :: 0 <= k < |view| ==> copies[k] == NestedOf(view[k])
    decreases Size(ref), 0
  {
    hide Sound, NestedOf, Size;
    copies := [];
    var k := 0;
    while k < |view|
      invariant 0 <= k <= |view| && |copies| == k
      invariant forall i :: 0 <= i < k ==> copies[i] == NestedOf(view[i])
    {
      var copy := SchemaIRNode(view[k]);
      copies := copies + [copy];
      k := k + 1;
    }
  }

  lemma ViewsBelowSize(n: Node)
    requires Sound(n)
    ensures KeysAreChildren(n)
    ensures forall k :: 0 <= k < |n.children| ==> Size(n.children[k]) < Size(n)
    ensures forall k :: 0 <= k < |DataChildren(n)| ==> Size(DataChildren(n)[k]) < Size(n)
    ensures forall k :: 0 <= k < |ListKeys(n)| ==> Size(ListKeys(n)[k]) < Size(n)
  {
    hide PreorderAll, DataChildren, Flattened, Sound, Size;
    SoundItself(n);
    forall k | 0 <= k < |n.children|
      ensures Size(n.children[k]) < Size(n)
    {
      ChildBelow(n, k);
    }
    forall k | 0 <= k < |DataChildren(n)|
      ensures Size(DataChildren(n)[k]) < Size(n)
    {
      DataBelow(n, DataChildren(n)[k]);
    }
  }

  lemma ProjectionUnique(modules: seq<seq<Node>>, a: seq<seq<Nested>>, b: seq<seq<Nested>>)
    requires Projects(modules, a) && Projects(modules, b)
    ensures a == b
  {
    hide Sound, NestedOf;
    forall m | 0 <= m < |modules|
      ensures a[m] == b[m]
    {
      assert ProjectsModule(modules[m], a[m]) && ProjectsModule(modules[m], b[m]);
    }
  }

  /** The record count of the projection, saturated. */
  method V1RecordsOf(modules: seq<seq<Node>>, ghost nested: seq<seq<Nested>>) returns (total: nat)
    requires ValidForest(modules) && Projects(modules, nested)
    ensures total == Saturated(CountModules(nested))
  {
    hide ValidForest, Sound, NestedOf, AllNodes, Count, CountAll, Saturated, CountModules, ClosedUniverse;
    ForestIsUniverse(modules);
    ghost var u := set m | m in AllNodes(modules);
    var counter := new V1Counter(u);
    total := 0;
    var m := 0;
    CountNothing();
    assert nested[..0] == [];
    while m < |modules|
      invariant 0 <= m <= |modules| && counter.Valid() && counter.universe == u
      invariant total == Saturated(CountModules(nested[..m]))
    {
      var k := 0;
      ghost var before := CountModules(nested[..m]);
      assert ProjectsModule(modules[m], nested[m]);
      assert nested[m][..0] == [];
      while k < |modules[m]|
        invariant 0 <= k <= |modules[m]| && counter.Valid() && counter.universe == u
        invariant total == Saturated(before + CountAll(nested[m][..k]))
      {
        var n := counter.V1Records(modules[m][k]);
        CountAllNext(nested[m], k);
        SaturatingSum(before + CountAll(nested[m][..k]), Count(nested[m][k]));
        SaturatedFits(before + CountAll(nested[m][..k]));
        SaturatedFits(Count(nested[m][k]));
        total := SaturatingAdd(total, n);
        k := k + 1;
      }
      assert nested[m][..k] == nested[m];
      CountModulesNext(nested, m);
      m := m + 1;
    }
    assert nested[..m] == nested;
  }

  lemma CountNothing()
    ensures CountAll([]) == 0 && CountModules([]) == 0 && Saturated(0) == 0
  {
  }

  lemma CountModulesNext(nested: seq<seq<Nested>>, m: nat)
    requires m < |nested|
    ensures CountModules(nested[..m + 1]) == CountModules(nested[..m]) + CountAll(nested[m])
  {
    hide CountAll;
    assert nested[..m + 1][..m] == nested[..m];
  }

  /**
   The nested projection if it takes at most maxRecords records.  It is refused exactly when it
   takes more, or at least 2^64 - 1; then nothing is built.
   */
  method SchemaIRWithLimit(modules: seq<seq<Node>>, maxRecords: nat, ghost exact: seq<seq<Nested>>)
    returns (r: Option<seq<seq<Nested>>>)
    requires ValidForest(modules) && maxRecords <= MAX_UINT64 && Projects(modules, exact)
    ensures r.Some? <==> CountModules(exact) <= maxRecords && CountModules(exact) < MAX_UINT64
    ensures r.Some? ==> r.value == exact && CountModules(r.value) <= maxRecords
  {
    hide ValidForest, Projects, CountModules;
    var total := V1RecordsOf(modules, exact);
    if total > maxRecords || total == MAX_UINT64 {
      return None;
    }
    var nested := SchemaIR(modules);
    ProjectionUnique(modules, nested, exact);
    r := Some(nested);
  }
}
