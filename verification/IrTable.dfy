/** The node table: every schema node once, its views as references to other rows. */
module IrTable {
  import opened Common
  import opened IrTrees

  datatype Row = Row(id: nat, parent: Option<nat>, ref: Node, children: seq<nat>, dataChildren: seq<nat>,
                     listKeys: seq<nat>)

  function Refs(rows: seq<Row>): (r: seq<Node>)
    ensures |r| == |rows| && forall i :: 0 <= i < |r| ==> r[i] == rows[i].ref
  {
    seq(|rows|, i requires 0 <= i < |rows| => rows[i].ref)
  }

  ghost predicate UniqueIds(ns: seq<Node>) {
    forall i, j :: 0 <= i < j < |ns| ==> ns[i].id != ns[j].id
  }

  /** The row numbers in view name the nodes of targets, all in later rows. */
  ghost predicate Names(rows: seq<Row>, i: nat, view: seq<nat>, targets: seq<Node>) {
    && |view| == |targets|
    && forall k :: 0 <= k < |view| ==> i < view[k] < |rows| && rows[view[k]].ref == targets[k]
  }

  /** Row i is numbered i, and its children are listed after it with i as their parent. */
  ghost predicate Linked(rows: seq<Row>, i: nat)
    requires i < |rows|
  {
    && rows[i].id == i
    && Names(rows, i, rows[i].children, rows[i].ref.children)
    && forall k :: 0 <= k < |rows[i].children| ==> rows[rows[i].children[k]].parent == Some(i)
  }

  ghost predicate ParentEarlier(rows: seq<Row>, i: nat)
    requires i < |rows|
  {
    rows[i].parent.Some? ==> rows[i].parent.value < i && rows[i].ref in rows[rows[i].parent.value].ref.children
  }

  /** Row i also names its data children and list keys. */
  ghost predicate Viewed(rows: seq<Row>, i: nat)
    requires i < |rows| && KeysAreChildren(rows[i].ref)
  {
    && Names(rows, i, rows[i].dataChildren, DataChildren(rows[i].ref))
    && Names(rows, i, rows[i].listKeys, ListKeys(rows[i].ref))
  }

  /** What building the structural part of the table adds: rows for ns and below, in pre-order. */
  ghost predicate Extends(before: seq<Row>, after: seq<Row>, ns: seq<Node>) {
    && before <= after && Refs(after) == Refs(before) + PreorderAll(ns)
    && forall i :: |before| <= i < |after| ==> Placed(after, i)
  }

  ghost predicate Indexed(rows: seq<Row>, ids: map<NodeId, nat>) {
    && (forall i :: 0 <= i < |rows| ==> rows[i].ref.id in ids && ids[rows[i].ref.id] == i)
    && (forall n :: n in ids ==> ids[n] < |rows| && rows[ids[n]].ref.id == n)
  }

  /** None of ns or below is known, and their ids differ. */
  ghost predicate New(known: set<NodeId>, ns: seq<Node>) {
    UniqueIds(PreorderAll(ns)) && forall m :: m in PreorderAll(ns) ==> m.id !in known
  }

  /** The rows of targets, added under row id. */
  ghost predicate Linking(rows: seq<Row>, id: nat, children: seq<nat>, targets: seq<Node>) {
    Names(rows, id, children, targets) && forall k :: 0 <= k < |children| ==> rows[children[k]].parent == Some(id)
  }

  /** Row i has all the structure it will have. */
  ghost predicate Placed(rows: seq<Row>, i: nat)
    requires i < |rows|
  {
    Linked(rows, i) && ParentEarlier(rows, i)
  }

  lemma PreorderAllOne(n: Node)
    ensures PreorderAll([n]) == Preorder(n)
  {
    hide Preorder;
    assert PreorderAll([n]) == Preorder(n) + PreorderAll([]);
  }

  lemma PlacedInLonger(a: seq<Row>, b: seq<Row>, i: nat)
    requires a <= b && i < |a| && Placed(a, i)
    ensures Placed(b, i)
  {
  }

  /** Filling in the views of a row changes nothing for the other rows. */
  lemma PlacedAfterUpdate(rows: seq<Row>, id: nat, row: Row, i: nat)
    requires i < |rows| && id < |rows| && i != id && Placed(rows, i)
    requires row.ref == rows[id].ref && row.parent == rows[id].parent
    ensures Placed(rows[id := row], i)
  {
  }

  lemma ExtendsNothing(rows: seq<Row>)
    ensures Extends(rows, rows, [])
  {
  }

  lemma LinkingNothing(rows: seq<Row>, id: nat)
    ensures Linking(rows, id, [], [])
  {
  }

  lemma ExtendsNext(before: seq<Row>, middle: seq<Row>, after: seq<Row>, ns: seq<Node>, k: nat)
    requires k < |ns| && Extends(before, middle, ns[..k]) && Extends(middle, after, [ns[k]])
    ensures Extends(before, after, ns[..k + 1])
  {
    hide Placed, PreorderAll, Preorder;
    PreorderAllNext(ns, k);
    PreorderAllOne(ns[k]);
    forall i | |before| <= i < |after|
      ensures Placed(after, i)
    {
      if i < |middle| {
        PlacedInLonger(middle, after, i);
      }
    }
  }

  lemma LinkingNext(middle: seq<Row>, after: seq<Row>, id: nat, children: seq<nat>, child: nat, ns: seq<Node>, k: nat)
    requires k < |ns| && Linking(middle, id, children, ns[..k]) && Extends(middle, after, [ns[k]])
    requires child == |middle| && id < |middle| && child < |after| && after[child].parent == Some(id)
    ensures Linking(after, id, children + [child], ns[..k + 1])
  {
    hide Placed, PreorderAll, Preorder;
    PreorderAllOne(ns[k]);
    assert Refs(after)[|Refs(middle)|] == Preorder(ns[k])[0];
    assert after[child].ref == ns[k];
  }

  lemma NewHead(known: set<NodeId>, ns: seq<Node>, k: nat)
    requires k < |ns| && New(known, ns[k..])
    ensures New(known, [ns[k]]) && ns[k].id !in known
  {
    hide Preorder;
    PreorderAllOne(ns[k]);
    assert ns[k..][0] == ns[k];
    var all, head := PreorderAll(ns[k..]), Preorder(ns[k]);
    assert all == head + PreorderAll(ns[k..][1..]);
    assert forall m :: m in head ==> m in all;
    assert head[0] in head;
    assert forall i :: 0 <= i < |head| ==> head[i] == all[i];
  }

  lemma NewRest(known: set<NodeId>, ns: seq<Node>, k: nat, later: set<NodeId>)
    requires k < |ns| && New(known, ns[k..])
    requires forall n :: n in later ==> n in known || exists m :: m in Preorder(ns[k]) && m.id == n
    ensures New(later, ns[k + 1..])
  {
    hide Preorder;
    var all, head, rest := PreorderAll(ns[k..]), Preorder(ns[k]), PreorderAll(ns[k + 1..]);
    assert ns[k..][0] == ns[k] && ns[k..][1..] == ns[k + 1..];
    assert all == head + rest;
    assert forall i :: 0 <= i < |rest| ==> rest[i] == all[|head| + i];
    forall h, m | h in head && m in rest
      ensures h.id != m.id
    {
      var j: nat :| j < |head| && head[j] == h;
      var i: nat :| i < |rest| && rest[i] == m;
      assert all[j].id != all[|head| + i].id;
    }
    assert forall m :: m in rest ==> m in all;
  }

  lemma NewBelow(known: set<NodeId>, ref: Node)
    requires New(known, [ref])
    ensures New(known + {ref.id}, ref.children)
  {
    hide PreorderAll;
    PreorderAllOne(ref);
    var all, rest := Preorder(ref), PreorderAll(ref.children);
    assert all == [ref] + rest;
    assert forall i :: 0 <= i < |rest| ==> rest[i] == all[i + 1];
    forall m | m in rest
      ensures m.id !in known + {ref.id}
    {
      var i: nat :| i < |rest| && rest[i] == m;
      assert all[0].id != all[i + 1].id;
    }
  }

  /** The ids in the table after ns[k] was added. */
  lemma KnownAfter(before: seq<Row>, after: seq<Row>, known: map<NodeId, nat>, ids: map<NodeId, nat>, n: Node)
    requires Indexed(before, known) && Indexed(after, ids) && Extends(before, after, [n])
    ensures forall i :: i in ids.Keys ==> i in known.Keys || exists m :: m in Preorder(n) && m.id == i
  {
    hide Placed, PreorderAll, Preorder;
    PreorderAllOne(n);
    forall i | i in ids.Keys
      ensures i in known.Keys || exists m :: m in Preorder(n) && m.id == i
    {
      var at := ids[i];
      if at < |before| {
        assert before[at].ref.id == i;
      } else {
        assert Refs(after)[at] == Preorder(n)[at - |before|];
        assert after[at].ref in Preorder(n);
      }
    }
  }

  lemma Finish(before: seq<Row>, recorded: seq<Row>, grown: seq<Row>, ref: Node, parent: Option<nat>,
               children: seq<nat>)
    requires recorded == before + [Row(|before|, parent, ref, [], [], [])]
    requires parent.Some? ==> parent.value < |before| && ref in before[parent.value].ref.children
    requires Extends(recorded, grown, ref.children) && Linking(grown, |before|, children, ref.children)
    ensures Extends(before, grown[|before| := grown[|before|].(children := children)], [ref])
  {
    hide PreorderAll, Placed;
    var id := |before|;
    var row := grown[id].(children := children);
    var after := grown[id := row];
    PreorderAllOne(ref);
    assert grown[id] == recorded[id];
    forall i | |before| <= i < |after|
      ensures Placed(after, i)
    {
      if i == id {
        FinishRow(before, recorded, grown, ref, parent, children);
      } else {
        PlacedAfterUpdate(grown, id, row, i);
      }
    }
    assert Refs(after) == Refs(grown);
    assert Refs(recorded) == Refs(before) + [ref];
    assert forall i :: 0 <= i < |before| ==> grown[i] == recorded[i] == before[i];
  }

  lemma FinishRow(before: seq<Row>, recorded: seq<Row>, grown: seq<Row>, ref: Node, parent: Option<nat>,
                  children: seq<nat>)
    requires recorded == before + [Row(|before|, parent, ref, [], [], [])] && recorded <= grown
    requires parent.Some? ==> parent.value < |before| && ref in before[parent.value].ref.children
    requires Linking(grown, |before|, children, ref.children)
    ensures Placed(grown[|before| := grown[|before|].(children := children)], |before|)
  {
    var id := |before|;
    assert grown[id] == recorded[id];
    if parent.Some? {
      assert grown[parent.value] == recorded[parent.value] == before[parent.value];
    }
  }

  class SchemaIRTableBuilder {
    var nodes: seq<Row>
    var ids: map<NodeId, nat>

    constructor ()
      ensures nodes == [] && ids == map[]
    {
      nodes, ids := [], map[];
    }

    ghost predicate Valid()
      reads this
    {
      Indexed(nodes, ids)
    }

    /** A row for ref, its views still empty. */
    method Record(ref: Node, parent: Option<nat>) returns (id: nat)
      requires Valid() && ref.id !in ids
      modifies this
      ensures Valid() && id == |old(nodes)|
      ensures nodes == old(nodes) + [Row(id, parent, ref, [], [], [])]
      ensures ids == old(ids)[ref.id := id]
    {
      id := |nodes|;
      ids := ids[ref.id := id];
      nodes := nodes + [Row(id, parent, ref, [], [], [])];
    }

    /** Rows for ref and everything below it, in pre-order; nothing new if ref has a row. */
    method Add(ref: Node, parent: Option<nat>) returns (id: nat)
      requires Valid() && (ref.id !in ids ==> New(ids.Keys, [ref]))
      requires parent.Some? ==> parent.value < |nodes| && ref in nodes[parent.value].ref.children
      modifies this
      ensures Valid() && id < |nodes| && nodes[id].ref.id == ref.id
      ensures ref.id in old(ids) ==> nodes == old(nodes) && ids == old(ids) && id == ids[ref.id]
      ensures ref.id !in old(ids) ==>
              id == |old(nodes)| && Extends(old(nodes), nodes, [ref]) && nodes[id].parent == parent
      decreases ref
    {
      hide New, Linking, Placed, PreorderAll;
      if ref.id in ids {
        return ids[ref.id];
      }
      NewBelow(ids.Keys, ref);
      ghost var before := nodes;
      id := Record(ref, parent);
      ghost var recorded := nodes;
      assert recorded[id].ref == ref;
      var children: seq<nat> := [];
      var k := 0;
      ExtendsNothing(nodes);
      LinkingNothing(nodes, id);
      assert ids.Keys == old(ids).Keys + {ref.id};
      assert ref.children[..0] == [] && ref.children[0..] == ref.children;
      while k < |ref.children|
        invariant 0 <= k <= |ref.children| && Valid()
        invariant Extends(recorded, nodes, ref.children[..k])
        invariant Linking(nodes, id, children, ref.children[..k])
        invariant New(ids.Keys, ref.children[k..])
      {
        NewHead(ids.Keys, ref.children, k);
        ghost var middle, known := nodes, ids;
        assert nodes[id] == recorded[id];
        var child := Add(ref.children[k], Some(id));
        ExtendsNext(recorded, middle, nodes, ref.children, k);
        LinkingNext(middle, nodes, id, children, child, ref.children, k);
        KnownAfter(middle, nodes, known, ids, ref.children[k]);
        NewRest(known.Keys, ref.children, k, ids.Keys);
        children := children + [child];
        k := k + 1;
      }
      assert ref.children[..k] == ref.children;
      ghost var grown := nodes;
      assert grown[id] == recorded[id];
      nodes := nodes[id := nodes[id].(children := children)];
      Finish(before, recorded, grown, ref, parent, children);
    }

    /** The row of ref, added under its parent's row if it has none. */
    method LookupOrAdd(ref: Node, parentId: Option<NodeId>) returns (id: nat)
      requires Valid() && (ref.id !in ids ==> New(ids.Keys, [ref]))
      requires parentId.Some? && parentId.value in ids ==> ref in nodes[ids[parentId.value]].ref.children
      modifies this
      ensures Valid() && id < |nodes| && nodes[id].ref.id == ref.id
      ensures ref.id in old(ids) ==> nodes == old(nodes) && ids == old(ids) && id == ids[ref.id]
      ensures ref.id !in old(ids) ==> id == |old(nodes)| && Extends(old(nodes), nodes, [ref])
    {
      if ref.id in ids {
        return ids[ref.id];
      }
      var parent := if parentId.Some? && parentId.value in ids then Some(ids[parentId.value]) else None;
      id := Add(ref, parent);
    }

    /** Rows for the top-level nodes of one module. */
    method AddModule(children: seq<Node>) returns (view: seq<nat>)
      requires Valid() && New(ids.Keys, children)
      modifies this
      ensures Valid() && Extends(old(nodes), nodes, children) && TopLevel(nodes, view, children)
      ensures forall i :: i in ids.Keys ==> i in old(ids).Keys || exists m :: m in PreorderAll(children) && m.id == i
    {
      hide New, Placed, PreorderAll, TopLevel, Extends;
      view := [];
      var k := 0;
      ghost var before, knownBefore := nodes, ids;
      ExtendsNothing(nodes);
      TopLevelNothing(nodes);
      assert children[..0] == [] && children[0..] == children;
      while k < |children|
        invariant 0 <= k <= |children| && Valid()
        invariant Extends(before, nodes, children[..k]) && TopLevel(nodes, view, children[..k])
        invariant New(ids.Keys, children[k..])
      {
        NewHead(ids.Keys, children, k);
        ghost var middle, known := nodes, ids;
        var id := Add(children[k], None);
        ExtendsNext(before, middle, nodes, children, k);
        TopLevelNext(middle, nodes, view, id, children, k);
        KnownAfter(middle, nodes, known, ids, children[k]);
        NewRest(known.Keys, children, k, ids.Keys);
        view := view + [id];
        k := k + 1;
      }
      assert children[..k] == children;
      KnownAfterAll(before, nodes, knownBefore, ids, children);
    }

    /** The rows of a view of row i; all its nodes have one already. */
    method View(i: nat, targets: seq<Node>, ghost all: seq<Node>) returns (view: seq<nat>)
      requires Valid() && i < |nodes| && Refs(nodes) == PreorderAll(all) && UniqueIds(PreorderAll(all))
      requires forall t :: t in targets ==> t in PreorderAll(nodes[i].ref.children)
      modifies this
      ensures nodes == old(nodes) && ids == old(ids)
      ensures Names(nodes, i, view, targets)
    {
      hide PreorderAll;
      view := [];
      var k := 0;
      while k < |targets|
        invariant 0 <= k <= |targets| && nodes == old(nodes) && ids == old(ids)
        invariant Names(nodes, i, view, targets[..k])
      {
        RowBelow(nodes, ids, all, i, targets[k]);
        var id := LookupOrAdd(targets[k], None);
        view := view + [id];
        k := k + 1;
      }
      assert targets[..k] == targets;
    }

    /** Fills in the data children and list keys of every row. */
    method AddViews(ghost all: seq<Node>)
      requires Valid() && Refs(nodes) == PreorderAll(all) && UniqueIds(PreorderAll(all))
      requires (forall m :: m in PreorderAll(all) ==> KeysAreChildren(m))
               && forall i :: 0 <= i < |nodes| ==> Placed(nodes, i)
      modifies this
      ensures Refs(nodes) == PreorderAll(all) && SameParents(old(nodes), nodes) && Represents(nodes)
    {
      hide PreorderAll, Placed, Viewed, DataChildren, ListKeys, KeysAreChildren, Names, Refs;
      var i := 0;
      while i < |nodes|
        invariant 0 <= i <= |nodes| && Valid() && Refs(nodes) == PreorderAll(all) && SameParents(old(nodes), nodes)
        invariant forall j :: 0 <= j < |nodes| ==> Placed(nodes, j) && KeysAreChildren(nodes[j].ref)
        invariant forall j :: 0 <= j < i ==> Viewed(nodes, j)
      {
        var ref := nodes[i].ref;
        ViewsBelow(ref);
        var data := View(i, DataChildren(ref), all);
        var keys := View(i, ListKeys(ref), all);
        ghost var before := nodes;
        nodes := nodes[i := nodes[i].(dataChildren := data, listKeys := keys)];
        ViewFilled(before, nodes, i, data, keys);
        i := i + 1;
      }
    }
  }

  /** view names the rows of the top-level nodes ns. */
  ghost predicate TopLevel(rows: seq<Row>, view: seq<nat>, ns: seq<Node>) {
    && |view| == |ns|
    && forall k :: 0 <= k < |view| ==> view[k] < |rows| && rows[view[k]].ref == ns[k] && rows[view[k]].parent == None
  }

  lemma TopLevelNothing(rows: seq<Row>)
    ensures TopLevel(rows, [], [])
  {
  }

  lemma TopLevelNext(middle: seq<Row>, after: seq<Row>, view: seq<nat>, id: nat, ns: seq<Node>, k: nat)
    requires k < |ns| && TopLevel(middle, view, ns[..k]) && Extends(middle, after, [ns[k]])
    requires id == |middle| && id < |after| && after[id].parent == None
    ensures TopLevel(after, view + [id], ns[..k + 1])
  {
    hide Placed, PreorderAll, Preorder;
    PreorderAllOne(ns[k]);
    assert Refs(after)[|Refs(middle)|] == Preorder(ns[k])[0];
    assert after[id].ref == ns[k];
  }

  lemma TopLevelInLonger(a: seq<Row>, b: seq<Row>, view: seq<nat>, ns: seq<Node>)
    requires a <= b && TopLevel(a, view, ns)
    ensures TopLevel(b, view, ns)
  {
  }

  lemma KnownAfterAll(before: seq<Row>, after: seq<Row>, known: map<NodeId, nat>, ids: map<NodeId, nat>, ns: seq<Node>)
    requires Indexed(before, known) && Indexed(after, ids) && Extends(before, after, ns)
    ensures forall i :: i in ids.Keys ==> i in known.Keys || exists m :: m in PreorderAll(ns) && m.id == i
  {
    hide Placed, PreorderAll;
    forall i | i in ids.Keys
      ensures i in known.Keys || exists m :: m in PreorderAll(ns) && m.id == i
    {
      var at := ids[i];
      if at < |before| {
        assert before[at].ref.id == i;
      } else {
        assert Refs(after)[at] == PreorderAll(ns)[at - |before|];
        assert after[at].ref in PreorderAll(ns);
      }
    }
  }

  /** What lies below row i has its row further down. */
  lemma RowBelow(rows: seq<Row>, ids: map<NodeId, nat>, all: seq<Node>, i: nat, d: Node)
    requires Indexed(rows, ids) && i < |rows| && Refs(rows) == PreorderAll(all) && UniqueIds(PreorderAll(all))
    requires d in PreorderAll(rows[i].ref.children)
    ensures d.id in ids && i < ids[d.id] < |rows| && rows[ids[d.id]].ref == d
  {
    hide PreorderAll;
    PreorderBlock(all, i);
    var x := rows[i].ref;
    assert PreorderAll(all)[i] == Refs(rows)[i] == x;
    var below := PreorderAll(x.children);
    var p: nat :| p < |below| && below[p] == d;
    assert Preorder(x)[p + 1] == d;
    assert PreorderAll(all)[i..i + Size(x)][p + 1] == PreorderAll(all)[i + p + 1] == Refs(rows)[i + p + 1];
    assert rows[i + p + 1].ref == d;
  }

  lemma ViewsBelow(n: Node)
    requires KeysAreChildren(n)
    ensures forall d :: d in DataChildren(n) ==> d in PreorderAll(n.children)
    ensures forall k :: k in ListKeys(n) ==> k in PreorderAll(n.children)
  {
    hide PreorderAll, Flattened, DataChildren;
    forall d | d in DataChildren(n)
      ensures d in PreorderAll(n.children)
    {
      DataBelow(n, d);
    }
    forall k | k in ListKeys(n)
      ensures k in PreorderAll(n.children)
    {
      var i: nat :| i < |n.keys| && ListKeys(n)[i] == k;
      ChildBelow(n, n.keys[i]);
    }
  }

  ghost predicate SameParents(a: seq<Row>, b: seq<Row>) {
    |a| == |b| && forall i :: 0 <= i < |a| ==> a[i].ref == b[i].ref && a[i].parent == b[i].parent
  }

  /** Every row is numbered and linked, and its three views name later rows. */
  ghost predicate Represents(rows: seq<Row>) {
    forall i :: 0 <= i < |rows| ==> KeysAreChildren(rows[i].ref) && Placed(rows, i) && Viewed(rows, i)
  }

  lemma NamesAfterUpdate(rows: seq<Row>, id: nat, row: Row, i: nat, view: seq<nat>, targets: seq<Node>)
    requires id < |rows| && row.ref == rows[id].ref && Names(rows, i, view, targets)
    ensures Names(rows[id := row], i, view, targets)
  {
  }

  lemma {:induction false} ViewFilled(before: seq<Row>, after: seq<Row>, i: nat, data: seq<nat>, keys: seq<nat>)
    requires i < |before| && after == before[i := before[i].(dataChildren := data, listKeys := keys)]
    requires forall j :: 0 <= j < |before| ==> Placed(before, j) && KeysAreChildren(before[j].ref)
    requires forall j :: 0 <= j < i ==> Viewed(before, j)
    requires Names(before, i, data, DataChildren(before[i].ref)) && Names(before, i, keys, ListKeys(before[i].ref))
    ensures Refs(after) == Refs(before) && SameParents(before, after)
    ensures forall j :: 0 <= j < |after| ==> Placed(after, j) && KeysAreChildren(after[j].ref)
    ensures forall j :: 0 <= j < i + 1 ==> Viewed(after, j)
  {
    hide PreorderAll, DataChildren, ListKeys, KeysAreChildren, Names;
    var row := after[i];
    forall j | 0 <= j < |after|
      ensures Placed(after, j)
    {
      assert Placed(before, j);
      ChildrenStay(before, i, row, j);
    }
    forall j | 0 <= j < i + 1
      ensures Viewed(after, j)
    {
      if j < i {
        assert Viewed(before, j);
        NamesAfterUpdate(before, i, row, j, before[j].dataChildren, DataChildren(before[j].ref));
        NamesAfterUpdate(before, i, row, j, before[j].listKeys, ListKeys(before[j].ref));
      } else {
        NamesAfterUpdate(before, i, row, i, data, DataChildren(before[i].ref));
        NamesAfterUpdate(before, i, row, i, keys, ListKeys(before[i].ref));
      }
    }
  }

  lemma ChildrenStay(before: seq<Row>, i: nat, row: Row, j: nat)
    requires i < |before| && j < |before| && Placed(before, j)
    requires row.ref == before[i].ref && row.parent == before[i].parent && row.children == before[i].children
             && row.id == before[i].id
    ensures Placed(before[i := row], j)
  {
  }

  // ---- The whole table

  datatype Table = Table(modules: seq<seq<nat>>, nodes: seq<Row>)

  function Concat(modules: seq<seq<Node>>): seq<Node> {
    if modules == [] then [] else Concat(modules[..|modules| - 1]) + modules[|modules| - 1]
  }

  /** All nodes of all modules, in pre-order. */
  function AllNodes(modules: seq<seq<Node>>): seq<Node> { PreorderAll(Concat(modules)) }

  /** The top-level nodes of the modules: every node has its own identity, and list keys are children. */
  ghost predicate ValidForest(modules: seq<seq<Node>>) {
    UniqueIds(AllNodes(modules)) && forall m :: m in AllNodes(modules) ==> KeysAreChildren(m)
  }

  lemma ConcatNext(modules: seq<seq<Node>>, k: nat)
    requires k < |modules|
    ensures Concat(modules[..k + 1]) == Concat(modules[..k]) + modules[k]
    ensures AllNodes(modules[..k + 1]) == AllNodes(modules[..k]) + PreorderAll(modules[k])
  {
    hide PreorderAll;
    assert modules[..k + 1][..k] == modules[..k];
    PreorderAllAppend(Concat(modules[..k]), modules[k]);
  }

  lemma {:induction false} PrefixOfAll(modules: seq<seq<Node>>, k: nat)
    requires k <= |modules|
    ensures AllNodes(modules[..k]) <= AllNodes(modules)
    decreases |modules| - k
  {
    hide PreorderAll, Concat;
    if k < |modules| {
      ConcatNext(modules, k);
      PrefixOfAll(modules, k + 1);
    } else {
      assert modules[..k] == modules;
    }
  }

  /** The next module is new to a table of the modules before it. */
  lemma ModuleNew(modules: seq<seq<Node>>, k: nat, rows: seq<Row>, ids: map<NodeId, nat>)
    requires k < |modules| && UniqueIds(AllNodes(modules))
    requires Indexed(rows, ids) && Refs(rows) == AllNodes(modules[..k])
    ensures New(ids.Keys, modules[k])
  {
    hide PreorderAll, Concat;
    ConcatNext(modules, k);
    PrefixOfAll(modules, k + 1);
    var all, done, next := AllNodes(modules), AllNodes(modules[..k]), PreorderAll(modules[k]);
    assert forall i :: 0 <= i < |next| ==> all[|done| + i] == next[i];
    assert forall i :: 0 <= i < |done| ==> all[i] == rows[i].ref;
    forall m | m in next
      ensures m.id !in ids.Keys
    {
      var i: nat :| i < |next| && next[i] == m;
      assert forall j :: 0 <= j < |done| ==> all[j].id != all[|done| + i].id;
    }
  }

  /** Every table entry of the modules, numbered in pre-order. */
  method SchemaIRTable(modules: seq<seq<Node>>) returns (table: Table)
    requires ValidForest(modules)
    ensures Refs(table.nodes) == AllNodes(modules) && Represents(table.nodes)
    ensures |table.modules| == |modules|
    ensures forall m :: 0 <= m < |modules| ==> TopLevel(table.nodes, table.modules[m], modules[m])
  {
    hide PreorderAll, Concat, Placed, TopLevel, New, Represents, AllNodes, KeysAreChildren;
    var b := new SchemaIRTableBuilder();
    var views: seq<seq<nat>> := [];
    var k := 0;
    StartTable(modules);
    while k < |modules|
      invariant 0 <= k <= |modules| && b.Valid() && |views| == k
      invariant Refs(b.nodes) == AllNodes(modules[..k])
      invariant forall i :: 0 <= i < |b.nodes| ==> Placed(b.nodes, i)
      invariant forall m :: 0 <= m < k ==> TopLevel(b.nodes, views[m], modules[m])
    {
      ModuleNew(modules, k, b.nodes, b.ids);
      ghost var before := b.nodes;
      var view := b.AddModule(modules[k]);
      ModuleAdded(modules, k, before, b.nodes, views);
      views := views + [view];
      k := k + 1;
    }
    assert modules[..k] == modules;
    ghost var built := b.nodes;
    AllNodesIsPreorder(modules);
    b.AddViews(Concat(modules));
    forall m | 0 <= m < |modules|
      ensures TopLevel(b.nodes, views[m], modules[m])
    {
      TopLevelKept(built, b.nodes, views[m], modules[m]);
    }
    table := Table(views, b.nodes);
  }

  lemma StartTable(modules: seq<seq<Node>>)
    ensures AllNodes(modules[..0]) == Refs([])
  {
    assert modules[..0] == [];
  }

  lemma AllNodesIsPreorder(modules: seq<seq<Node>>)
    ensures AllNodes(modules) == PreorderAll(Concat(modules))
  {
  }

  lemma ModuleAdded(modules: seq<seq<Node>>, k: nat, before: seq<Row>, after: seq<Row>, views: seq<seq<nat>>)
    requires k < |modules| && |views| == k && Refs(before) == AllNodes(modules[..k])
             && Extends(before, after, modules[k])
    requires forall i :: 0 <= i < |before| ==> Placed(before, i)
    requires forall m :: 0 <= m < k ==> TopLevel(before, views[m], modules[m])
    ensures Refs(after) == AllNodes(modules[..k + 1])
    ensures forall i :: 0 <= i < |after| ==> Placed(after, i)
    ensures forall m :: 0 <= m < k ==> TopLevel(after, views[m], modules[m])
  {
    hide PreorderAll, Concat, Placed, TopLevel, AllNodes;
    ConcatNext(modules, k);
    forall i | 0 <= i < |after|
      ensures Placed(after, i)
    {
      if i < |before| {
        PlacedInLonger(before, after, i);
      }
    }
    forall m | 0 <= m < k
      ensures TopLevel(after, views[m], modules[m])
    {
      TopLevelInLonger(before, after, views[m], modules[m]);
    }
  }

  lemma TopLevelKept(before: seq<Row>, after: seq<Row>, view: seq<nat>, ns: seq<Node>)
    requires SameParents(before, after) && TopLevel(before, view, ns)
    ensures TopLevel(after, view, ns)
  {
  }

  // ---- Unfolding

  /** What row i stands for: its facts, with the rows its views name unfolded in turn. */
  function Unfold(rows: seq<Row>, i: nat): Nested
    requires i < |rows| && Represents(rows)
    decreases |rows| - i
  {
    var row := rows[i];
    assert Placed(rows, i) && Viewed(rows, i);
    Nested(row.ref.id, row.ref.kind,
           seq(|row.children|, k requires 0 <= k < |row.children| => Unfold(rows, row.children[k])),
           seq(|row.dataChildren|, k requires 0 <= k < |row.dataChildren| => Unfold(rows, row.dataChildren[k])),
           seq(|row.listKeys|, k requires 0 <= k < |row.listKeys| => Unfold(rows, row.listKeys[k])))
  }

  lemma ViewsSound(n: Node)
    requires Sound(n)
    ensures KeysAreChildren(n)
    ensures forall k :: 0 <= k < |n.children| ==> Sound(n.children[k])
    ensures forall k :: 0 <= k < |DataChildren(n)| ==> Sound(DataChildren(n)[k])
    ensures forall k :: 0 <= k < |ListKeys(n)| ==> Sound(ListKeys(n)[k])
  {
    hide PreorderAll, DataChildren, Flattened, Sound;
    assert KeysAreChildren(n) by { SoundItself(n); }
    forall k | 0 <= k < |n.children|
      ensures Sound(n.children[k])
    {
      ChildBelow(n, k);
      SoundBelow(n, n.children[k]);
    }
    forall k | 0 <= k < |DataChildren(n)|
      ensures Sound(DataChildren(n)[k])
    {
      DataBelow(n, DataChildren(n)[k]);
      SoundBelow(n, DataChildren(n)[k]);
    }
  }

  lemma SoundItself(n: Node)
    requires Sound(n)
    ensures KeysAreChildren(n)
  {
    assert n in Preorder(n);
  }

  lemma {:induction false} NestedViews(n: Node)
    requires Sound(n)
    ensures KeysAreChildren(n)
    ensures var r := NestedOf(n);
            && r.id == n.id && r.kind == n.kind
            && |r.children| == |n.children| && |r.dataChildren| == |DataChildren(n)| && |r.listKeys| == |ListKeys(n)|
            && (forall k :: 0 <= k < |n.children| ==> Sound(n.children[k]) && r.children[k] == NestedOf(n.children[k]))
            && (forall k :: 0 <= k < |DataChildren(n)| ==>
                Sound(DataChildren(n)[k]) && r.dataChildren[k] == NestedOf(DataChildren(n)[k]))
            && (forall k :: 0 <= k < |ListKeys(n)| ==>
                Sound(ListKeys(n)[k]) && r.listKeys[k] == NestedOf(ListKeys(n)[k]))
  {
    hide PreorderAll, DataChildren, Flattened, Sound;
    ViewsSound(n);
  }

  /** Unfolding a row of the table gives the nested projection of its node. */
  lemma {:induction false} UnfoldIsNested(rows: seq<Row>, i: nat)
    requires i < |rows| && Represents(rows) && Sound(rows[i].ref)
    ensures Unfold(rows, i) == NestedOf(rows[i].ref)
    decreases |rows| - i
  {
    hide PreorderAll, DataChildren, ListKeys, KeysAreChildren, Sound, NestedOf;
    var row, ref := rows[i], rows[i].ref;
    assert Placed(rows, i) && Viewed(rows, i);
    NestedViews(ref);
    forall k | 0 <= k < |row.children|
      ensures Unfold(rows, row.children[k]) == NestedOf(ref.children[k])
    {
      UnfoldIsNested(rows, row.children[k]);
    }
    forall k | 0 <= k < |row.dataChildren|
      ensures Unfold(rows, row.dataChildren[k]) == NestedOf(DataChildren(ref)[k])
    {
      UnfoldIsNested(rows, row.dataChildren[k]);
    }
    forall k | 0 <= k < |row.listKeys|
      ensures Unfold(rows, row.listKeys[k]) == NestedOf(ListKeys(ref)[k])
    {
      UnfoldIsNested(rows, row.listKeys[k]);
    }
    SameNested(Unfold(rows, i), NestedOf(ref));
  }

  lemma SameNested(a: Nested, b: Nested)
    requires a.id == b.id && a.kind == b.kind
    requires |a.children| == |b.children| && |a.dataChildren| == |b.dataChildren| && |a.listKeys| == |b.listKeys|
    requires forall k :: 0 <= k < |a.children| ==> a.children[k] == b.children[k]
    requires forall k :: 0 <= k < |a.dataChildren| ==> a.dataChildren[k] == b.dataChildren[k]
    requires forall k :: 0 <= k < |a.listKeys| ==> a.listKeys[k] == b.listKeys[k]
    ensures a == b
  {
    assert a.children == b.children && a.dataChildren == b.dataChildren && a.listKeys == b.listKeys;
  }

  /** All of the nested projection can be read off the table, module by module. */
  lemma {:induction false} TableUnfolds(table: Table, modules: seq<seq<Node>>, m: nat, k: nat)
    requires ValidForest(modules) && Refs(table.nodes) == AllNodes(modules) && Represents(table.nodes)
    requires |table.modules| == |modules| && m < |modules| && TopLevel(table.nodes, table.modules[m], modules[m])
             && k < |modules[m]|
    ensures Sound(modules[m][k]) && table.modules[m][k] < |table.nodes|
    ensures Unfold(table.nodes, table.modules[m][k]) == NestedOf(modules[m][k])
  {
    hide PreorderAll, Represents, KeysAreChildren, NestedOf, Concat, Unfold;
    var i := table.modules[m][k];
    assert table.nodes[i].ref == modules[m][k] && Refs(table.nodes)[i] == modules[m][k];
    forall b | b in Preorder(modules[m][k])
      ensures KeysAreChildren(b)
    {
      PreorderTransitive(Concat(modules), modules[m][k], b);
    }
    UnfoldIsNested(table.nodes, i);
  }
}
