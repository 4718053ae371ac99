/**
 What happens to augments when they are declared in another order.  Their ranks change with
 their positions, so the final trees are the same up to the order of groups of siblings.
 */
module AugmentDeclarations {
  import opened Common
  import opened SchemaTrees
  import opened Augments
  import opened AugmentOrder

  /** The rank each rank becomes; rank 0, of declared children, stays. */
  type Renaming = map<nat, nat>

  ghost predicate Renames(renaming: Renaming) {
    && 0 in renaming && renaming[0] == 0
    && forall a, b :: a in renaming && b in renaming && renaming[a] == renaming[b] ==> a == b
  }

  /** The children with the given rank, in order. */
  function OfRank(children: seq<Tree>, rank: nat): (r: seq<Tree>)
    ensures forall c :: c in r <==> c in children && c.rank == rank
  {
    if children == [] then []
    else
      var rest, last := OfRank(children[..|children| - 1], rank), children[|children| - 1];
      assert children == children[..|children| - 1] + [last];
      if last.rank == rank then rest + [last] else rest
  }

  /**
   u is t with ranks renamed: the same nodes, and below each node the same groups of siblings,
   each in the same order; only the order of the groups may differ.
   */
  ghost predicate Reordered(t: Tree, u: Tree, renaming: Renaming)
    decreases t, 1
  {
    && t.id == u.id && t.kind == u.kind
    && (forall c :: c in t.children ==> c.rank in renaming)
    && (forall c :: c in u.children ==> c.rank in renaming.Values)
    && forall r :: r in renaming ==> GroupReordered(t, OfRank(t.children, r), OfRank(u.children, renaming[r]), renaming)
  }

  /** A group of children of t and what it becomes, member by member. */
  ghost predicate GroupReordered(t: Tree, group: seq<Tree>, other: seq<Tree>, renaming: Renaming)
    requires forall c :: c in group ==> c in t.children
    decreases t, 0
  {
    |group| == |other| && forall i :: 0 <= i < |group| ==>
      group[i] in t.children && Reordered(group[i], other[i], renaming)
  }

  ghost predicate AllReordered(a: seq<Tree>, b: seq<Tree>, renaming: Renaming) {
    |a| == |b| && forall i :: 0 <= i < |a| ==> Reordered(a[i], b[i], renaming)
  }

  lemma MakeGroup(t: Tree, a: seq<Tree>, b: seq<Tree>, renaming: Renaming)
    requires forall c :: c in a ==> c in t.children
    ensures GroupReordered(t, a, b, renaming) <==> AllReordered(a, b, renaming)
  {
    hide Reordered;
    assert forall i :: 0 <= i < |a| ==> a[i] in a;
  }

  lemma MakeReordered(t: Tree, u: Tree, renaming: Renaming)
    requires t.id == u.id && t.kind == u.kind
    requires (forall c :: c in t.children ==> c.rank in renaming)
             && forall c :: c in u.children ==> c.rank in renaming.Values
    requires forall r :: r in renaming ==>
             AllReordered(OfRank(t.children, r), OfRank(u.children, renaming[r]), renaming)
    ensures Reordered(t, u, renaming)
  {
    hide OfRank, GroupReordered, AllReordered;
    forall r | r in renaming
      ensures GroupReordered(t, OfRank(t.children, r), OfRank(u.children, renaming[r]), renaming)
    {
      MakeGroup(t, OfRank(t.children, r), OfRank(u.children, renaming[r]), renaming);
    }
  }

  // ---- Groups of siblings

  lemma {:induction false} OfRankConcat(a: seq<Tree>, b: seq<Tree>, rank: nat)
    ensures OfRank(a + b, rank) == OfRank(a, rank) + OfRank(b, rank)
  {
    if b == [] {
      assert a + b == a;
    } else {
      assert (a + b)[..|a + b| - 1] == a + b[..|b| - 1];
      OfRankConcat(a, b[..|b| - 1], rank);
    }
  }

  lemma {:induction false} OfOneRank(nodes: seq<Tree>, own: nat, rank: nat)
    requires forall c :: c in nodes ==> c.rank == own
    ensures OfRank(nodes, rank) == if rank == own then nodes else []
  {
    if nodes != [] {
      var init, last := nodes[..|nodes| - 1], nodes[|nodes| - 1];
      assert nodes == init + [last] && last in nodes;
      OfOneRank(init, own, rank);
    }
  }

  lemma {:induction false} OfNoRank(nodes: seq<Tree>, rank: nat)
    requires forall c :: c in nodes ==> c.rank != rank
    ensures OfRank(nodes, rank) == []
  {
    if nodes != [] {
      OfNoRank(nodes[..|nodes| - 1], rank);
    }
  }

  /** Placing children of one rank puts them at the end of their group. */
  lemma PlacedOfRank(children: seq<Tree>, added: seq<Tree>, own: nat, rank: nat)
    requires forall c :: c in added ==> c.rank == own
    ensures OfRank(Place(children, added, own), rank) == OfRank(children, rank) + if rank == own then added else []
  {
    hide OfRank;
    var at := PlaceIndex(children, own);
    var low, high := children[..at], children[at..];
    assert children == low + high;
    OfRankConcat(low, high, rank);
    OfRankConcat(low + added, high, rank);
    OfRankConcat(low, added, rank);
    OfOneRank(added, own, rank);
    if rank == own {
      OfNoRank(high, rank);
    }
  }

  /** Where child i stands in its group. */
  function PlaceInGroup(children: seq<Tree>, i: nat): nat
    requires i < |children|
  {
    |OfRank(children[..i], children[i].rank)|
  }

  lemma UpdatedOfRank(children: seq<Tree>, i: nat, c: Tree, rank: nat)
    requires i < |children| && c.rank == children[i].rank
    ensures var k := PlaceInGroup(children, i);
            && k < |OfRank(children, c.rank)| && OfRank(children, c.rank)[k] == children[i]
            && OfRank(children[i := c], rank) == if rank == c.rank then OfRank(children, rank)[k := c]
              else OfRank(children, rank)
  {
    hide OfRank;
    var low, high := children[..i], children[i + 1..];
    assert children == low + [children[i]] + high && children[i := c] == low + [c] + high;
    OfRankConcat(low + [children[i]], high, rank);
    OfRankConcat(low, [children[i]], rank);
    OfRankConcat(low + [c], high, rank);
    OfRankConcat(low, [c], rank);
    OfOneRank([children[i]], c.rank, rank);
    OfOneRank([c], c.rank, rank);
    OfRankConcat(low + [children[i]], high, c.rank);
    OfRankConcat(low, [children[i]], c.rank);
    OfOneRank([children[i]], c.rank, c.rank);
  }

  /** Two children of one rank are two members of their group. */
  lemma TwoOfRank(children: seq<Tree>, i: nat, j: nat)
    requires i < j < |children| && children[i].rank == children[j].rank
    ensures var r := children[i].rank;
            PlaceInGroup(children, i) < PlaceInGroup(children, j) < |OfRank(children, r)|
            && OfRank(children, r)[PlaceInGroup(children, i)] == children[i]
              && OfRank(children, r)[PlaceInGroup(children, j)] == children[j]
  {
    hide PlaceInGroup, OfRank;
    var r := children[i].rank;
    UpdatedOfRank(children, i, children[i], r);
    UpdatedOfRank(children, j, children[j], r);
    LaterInGroup(children, i, j);
  }

  lemma LaterInGroup(children: seq<Tree>, i: nat, j: nat)
    requires i < j < |children| && children[i].rank == children[j].rank
    ensures PlaceInGroup(children, i) < PlaceInGroup(children, j)
  {
    hide OfRank;
    var r := children[i].rank;
    var low, middle := children[..i], children[i + 1..j];
    assert children[..j] == low + [children[i]] + middle;
    OfRankConcat(low + [children[i]], middle, r);
    OfRankConcat(low, [children[i]], r);
    OfOneRank([children[i]], r, r);
  }

  /** The members of a group are different children. */
  lemma {:induction false} GroupAtMostOne(children: seq<Tree>, rank: nat, s: Step)
    requires AtMostOne(children, s)
    ensures AtMostOne(OfRank(children, rank), s)
  {
    if children != [] {
      var init, last := children[..|children| - 1], children[|children| - 1];
      GroupAtMostOne(init, rank, s);
      forall i | 0 <= i < |OfRank(init, rank)|
        ensures !(Matches(s, OfRank(init, rank)[i].id) && Matches(s, last.id))
      {
        assert OfRank(init, rank)[i] in init;
      }
    }
  }

  // ---- The relation and its children

  lemma GroupOf(t: Tree, u: Tree, renaming: Renaming, r: nat)
    requires Reordered(t, u, renaming) && r in renaming
    ensures var a, b := OfRank(t.children, r), OfRank(u.children, renaming[r]);
            |a| == |b| && forall i :: 0 <= i < |a| ==> Reordered(a[i], b[i], renaming) && a[i].id == b[i].id
  {
    hide OfRank, GroupReordered;
    var a, b := OfRank(t.children, r), OfRank(u.children, renaming[r]);
    assert GroupReordered(t, a, b, renaming);
    MakeGroup(t, a, b, renaming);
    forall i | 0 <= i < |a|
      ensures Reordered(a[i], b[i], renaming) && a[i].id == b[i].id
    {
      SameNode(a[i], b[i], renaming);
    }
  }

  lemma SameNode(t: Tree, u: Tree, renaming: Renaming)
    requires Reordered(t, u, renaming)
    ensures t.id == u.id && t.kind == u.kind
    ensures forall c :: c in t.children ==> c.rank in renaming
    ensures forall c :: c in u.children ==> c.rank in renaming.Values
  {
  }

  /** The partner of child i of t in u. */
  lemma Forth(t: Tree, u: Tree, renaming: Renaming, i: nat) returns (d: Tree)
    requires Reordered(t, u, renaming) && i < |t.children|
    ensures d in u.children && t.children[i].rank in renaming && d.rank == renaming[t.children[i].rank]
    ensures d.id == t.children[i].id && Reordered(t.children[i], d, renaming)
    ensures var k := PlaceInGroup(t.children, i);
            k < |OfRank(u.children, d.rank)| && OfRank(u.children, d.rank)[k] == d
  {
    hide OfRank, Reordered;
    SameNode(t, u, renaming);
    var c := t.children[i];
    assert c in t.children;
    GroupOf(t, u, renaming, c.rank);
    UpdatedOfRank(t.children, i, c, c.rank);
    d := OfRank(u.children, renaming[c.rank])[PlaceInGroup(t.children, i)];
    assert d in OfRank(u.children, renaming[c.rank]);
  }

  /** The partner of child i of u in t. */
  lemma Back(t: Tree, u: Tree, renaming: Renaming, i: nat) returns (c: Tree)
    requires Reordered(t, u, renaming) && i < |u.children|
    ensures c in t.children && c.rank in renaming && u.children[i].rank == renaming[c.rank]
    ensures c.id == u.children[i].id && Reordered(c, u.children[i], renaming)
    ensures var k := PlaceInGroup(u.children, i);
            k < |OfRank(t.children, c.rank)| && OfRank(t.children, c.rank)[k] == c
  {
    hide OfRank, Reordered;
    SameNode(t, u, renaming);
    var d := u.children[i];
    assert d in u.children;
    var r :| r in renaming && renaming[r] == d.rank;
    GroupOf(t, u, renaming, r);
    UpdatedOfRank(u.children, i, d, d.rank);
    c := OfRank(t.children, r)[PlaceInGroup(u.children, i)];
    assert c in OfRank(t.children, r);
  }

  lemma ReorderedAtMostOne(t: Tree, u: Tree, renaming: Renaming, s: Step)
    requires Renames(renaming) && Reordered(t, u, renaming) && AtMostOne(t.children, s)
    ensures AtMostOne(u.children, s)
  {
    hide OfRank, Reordered;
    forall i, j | 0 <= i < j < |u.children|
      ensures !(Matches(s, u.children[i].id) && Matches(s, u.children[j].id))
    {
      if Matches(s, u.children[i].id) && Matches(s, u.children[j].id) {
        var c := Back(t, u, renaming, i);
        var d := Back(t, u, renaming, j);
        OneMember(t.children, s, c, d);
        TwoOfRank(u.children, i, j);
        GroupAtMostOne(t.children, c.rank, s);
      }
    }
  }

  lemma OneMember(children: seq<Tree>, s: Step, c: Tree, d: Tree)
    requires AtMostOne(children, s) && c in children && d in children && Matches(s, c.id) && Matches(s, d.id)
    ensures c == d
  {
  }

  /** Steps ambiguous in neither or in both. */
  lemma {:induction false} ReorderedUnambiguous(t: Tree, u: Tree, renaming: Renaming, steps: set<Step>)
    requires Renames(renaming) && Reordered(t, u, renaming) && Unambiguous(t, steps)
    ensures Unambiguous(u, steps)
    decreases t
  {
    hide OfRank, Reordered, AtMostOne;
    forall s | s in steps
      ensures AtMostOne(u.children, s)
    {
      ReorderedAtMostOne(t, u, renaming, s);
    }
    forall d | d in u.children
      ensures Unambiguous(d, steps)
    {
      var i :| 0 <= i < |u.children| && u.children[i] == d;
      var c := Back(t, u, renaming, i);
      ReorderedUnambiguous(c, d, renaming, steps);
    }
  }

  /** The step that names exactly the node q. */
  function Exact(q: QName): Step { Step(q.name, Some({q.mod})) }

  lemma {:induction false} UniqueIfExactlyFound(t: Tree)
    requires forall q :: Unambiguous(t, {Exact(q)})
    ensures UniqueSiblings(t)
  {
    forall i, j | 0 <= i < j < |t.children|
      ensures t.children[i].id != t.children[j].id
    {
      var s := Exact(t.children[i].id);
      StepUnambiguous(t, {s}, s);
    }
    forall c | c in t.children
      ensures UniqueSiblings(c)
    {
      forall q
        ensures Unambiguous(c, {Exact(q)})
      {
        assert Unambiguous(t, {Exact(q)});
      }
      UniqueIfExactlyFound(c);
    }
  }

  /** Unique siblings stay unique. */
  lemma ReorderedUnique(t: Tree, u: Tree, renaming: Renaming)
    requires Renames(renaming) && Reordered(t, u, renaming) && UniqueSiblings(t)
    ensures UniqueSiblings(u)
  {
    hide Reordered, UniqueSiblings, Unambiguous;
    forall q
      ensures Unambiguous(u, {Exact(q)})
    {
      assert Pinned({Exact(q)});
      PinnedUnambiguous(t, {Exact(q)});
      ReorderedUnambiguous(t, u, renaming, {Exact(q)});
    }
    UniqueIfExactlyFound(u);
  }

  // ---- Finding and inserting

  /** A step finds partners, at the same place of their groups. */
  lemma StepFindsPartner(t: Tree, u: Tree, renaming: Renaming, s: Step)
    requires Renames(renaming) && Reordered(t, u, renaming) && AtMostOne(t.children, s) && AtMostOne(u.children, s)
    ensures FirstMatch(t.children, s) < |t.children| <==> FirstMatch(u.children, s) < |u.children|
    ensures FirstMatch(t.children, s) < |t.children| ==>
              var i, k := FirstMatch(t.children, s), FirstMatch(u.children, s);
              && Reordered(t.children[i], u.children[k], renaming)
              && t.children[i].rank in renaming && u.children[k].rank == renaming[t.children[i].rank]
              && PlaceInGroup(t.children, i) == PlaceInGroup(u.children, k)
  {
    hide OfRank, Reordered;
    var i, k := FirstMatch(t.children, s), FirstMatch(u.children, s);
    if k < |u.children| {
      var c := Back(t, u, renaming, k);
      assert Matches(s, c.id);
    }
    if i < |t.children| {
      var d := Forth(t, u, renaming, i);
      var x: nat :| x < |u.children| && u.children[x] == d;
      OnlyMatch(u.children, s, x);
      UpdatedOfRank(u.children, k, d, d.rank);
      GroupAtMostOne(u.children, d.rank, s);
      var a, b := PlaceInGroup(t.children, i), PlaceInGroup(u.children, k);
      assert Matches(s, OfRank(u.children, d.rank)[a].id) && Matches(s, OfRank(u.children, d.rank)[b].id);
    }
  }

  lemma {:induction false} FindsPartner(t: Tree, u: Tree, renaming: Renaming, path: Path, steps: set<Step>)
    requires Renames(renaming) && Reordered(t, u, renaming) && Unambiguous(t, steps) && StepsIn(path, steps)
    ensures Find(t, path).Some? <==> Find(u, path).Some?
    ensures Find(t, path).Some? ==> Reordered(Find(t, path).value, Find(u, path).value, renaming)
    decreases |path|
  {
    hide OfRank, Reordered, Unambiguous, AtMostOne, StepsIn, FirstMatch;
    if path != [] {
      StepsOfTail(path, steps);
      ReorderedUnambiguous(t, u, renaming, steps);
      StepUnambiguous(t, steps, path[0]);
      StepUnambiguous(u, steps, path[0]);
      StepFindsPartner(t, u, renaming, path[0]);
      var i := FirstMatch(t.children, path[0]);
      if i < |t.children| {
        ChildUnambiguous(t, steps, i);
        FindsPartner(t.children[i], u.children[FirstMatch(u.children, path[0])], renaming, path[1..], steps);
      }
    }
  }

  /** Declared content is the same under any renaming, whatever the rank of its head. */
  lemma {:induction false} DeclaredSelf(t: Tree, u: Tree, renaming: Renaming)
    requires Renames(renaming) && AllDeclared(t.children) && t.id == u.id && t.kind == u.kind
             && t.children == u.children
    ensures Reordered(t, u, renaming)
    decreases t
  {
    hide OfRank;
    forall c | c in t.children
      ensures c.rank == 0 && Reordered(c, c, renaming)
    {
      assert Declared(c);
      DeclaredSelf(c, c, renaming);
    }
    assert renaming[0] in renaming.Values;
    forall r | r in renaming
      ensures AllReordered(OfRank(t.children, r), OfRank(u.children, renaming[r]), renaming)
    {
      OfOneRank(t.children, 0, r);
      OfOneRank(t.children, 0, renaming[r]);
    }
    MakeReordered(t, u, renaming);
  }

  lemma {:induction false} ContributionsMatch(content: seq<Tree>, kind: Kind, r: nat, s: nat, renaming: Renaming)
    requires Renames(renaming) && AllDeclared(content)
    ensures var a, b := Contribution(content, kind, r), Contribution(content, kind, s);
            |a| == |b| && forall i :: 0 <= i < |a| ==> Reordered(a[i], b[i], renaming)
  {
    hide Reordered;
    if content != [] {
      var c := content[0];
      assert Declared(c);
      ContributionsMatch(content[1..], kind, r, s, renaming);
      if kind.Choice? && !c.kind.Case? {
        DeclaredSelf(Tree(c.id, Case, r, [c]), Tree(c.id, Case, s, [c]), renaming);
      } else {
        DeclaredSelf(c.(rank := r), c.(rank := s), renaming);
      }
    }
  }

  lemma PlacedGroup(t: Tree, u: Tree, renaming: Renaming, a: seq<Tree>, b: seq<Tree>, rank: nat, r: nat)
    requires Renames(renaming) && Reordered(t, u, renaming) && rank in renaming && r in renaming
    requires AllReordered(a, b, renaming) && (forall c :: c in a ==> c.rank == rank)
             && forall c :: c in b ==> c.rank == renaming[rank]
    ensures AllReordered(OfRank(Place(t.children, a, rank), r),
                         OfRank(Place(u.children, b, renaming[rank]), renaming[r]), renaming)
  {
    hide OfRank, Place, Reordered;
    PlacedOfRank(t.children, a, rank, r);
    PlacedOfRank(u.children, b, renaming[rank], renaming[r]);
    GroupOf(t, u, renaming, r);
  }

  lemma InsertedHere(t: Tree, u: Tree, renaming: Renaming, content: seq<Tree>, rank: nat)
    requires Renames(renaming) && Reordered(t, u, renaming) && rank in renaming && AllDeclared(content)
    ensures Reordered(InsertAt(t, [], content, rank), InsertAt(u, [], content, renaming[rank]), renaming)
  {
    hide OfRank, Place, Contribution, AllDeclared, Reordered, Renames;
    var a, b := Contribution(content, t.kind, rank), Contribution(content, t.kind, renaming[rank]);
    ContributionRank(content, t.kind, rank);
    ContributionRank(content, t.kind, renaming[rank]);
    ContributionsMatch(content, t.kind, rank, renaming[rank], renaming);
    PlacedMembers(t.children, a, rank);
    PlacedMembers(u.children, b, renaming[rank]);
    assert renaming[rank] in renaming.Values;
    forall r | r in renaming
      ensures AllReordered(OfRank(Place(t.children, a, rank), r),
                           OfRank(Place(u.children, b, renaming[rank]), renaming[r]), renaming)
    {
      PlacedGroup(t, u, renaming, a, b, rank, r);
    }
    SameNode(t, u, renaming);
    MakeReordered(InsertAt(t, [], content, rank), InsertAt(u, [], content, renaming[rank]), renaming);
  }

  /** Replacing partners by partners. */
  lemma ReplacedChild(t: Tree, u: Tree, renaming: Renaming, i: nat, k: nat, c: Tree, d: Tree)
    requires Renames(renaming) && Reordered(t, u, renaming) && i < |t.children| && k < |u.children|
    requires PlaceInGroup(t.children, i) == PlaceInGroup(u.children, k)
    requires t.children[i].rank in renaming && u.children[k].rank == renaming[t.children[i].rank]
    requires c.rank == t.children[i].rank && d.rank == u.children[k].rank && Reordered(c, d, renaming)
    ensures Reordered(t.(children := t.children[i := c]), u.(children := u.children[k := d]), renaming)
  {
    hide OfRank, PlaceInGroup, Reordered;
    SameNode(t, u, renaming);
    forall r | r in renaming
      ensures AllReordered(OfRank(t.children[i := c], r), OfRank(u.children[k := d], renaming[r]), renaming)
    {
      UpdatedOfRank(t.children, i, c, r);
      UpdatedOfRank(u.children, k, d, renaming[r]);
      GroupOf(t, u, renaming, r);
    }
    assert t.children[i] in t.children && u.children[k] in u.children;
    MakeReordered(t.(children := t.children[i := c]), u.(children := u.children[k := d]), renaming);
  }

  lemma {:induction false} InsertedPartner(t: Tree, u: Tree, renaming: Renaming, path: Path, content: seq<Tree>,
                                           rank: nat, steps: set<Step>)
    requires Renames(renaming) && Reordered(t, u, renaming) && rank in renaming && AllDeclared(content)
    requires Unambiguous(t, steps) && StepsIn(path, steps) && Find(t, path).Some?
    ensures Find(u, path).Some?
    ensures Reordered(InsertAt(t, path, content, rank), InsertAt(u, path, content, renaming[rank]), renaming)
    decreases |path|
  {
    hide OfRank, Reordered, Unambiguous, AtMostOne, StepsIn, FirstMatch, Place, Contribution, AllDeclared, PlaceInGroup;
    if path == [] {
      InsertedHere(t, u, renaming, content, rank);
    } else {
      StepsOfTail(path, steps);
      ReorderedUnambiguous(t, u, renaming, steps);
      StepUnambiguous(t, steps, path[0]);
      StepUnambiguous(u, steps, path[0]);
      StepFindsPartner(t, u, renaming, path[0]);
      var i, k := FirstMatch(t.children, path[0]), FirstMatch(u.children, path[0]);
      ChildUnambiguous(t, steps, i);
      InsertedPartner(t.children[i], u.children[k], renaming, path[1..], content, rank, steps);
      ReplacedChild(t, u, renaming, i, k, InsertAt(t.children[i], path[1..], content, rank),
                    InsertAt(u.children[k], path[1..], content, renaming[rank]));
    }
  }

  // ---- Runs

  function Renamed(j: Job, renaming: Renaming): Job
    requires j.rank in renaming
  {
    j.(rank := renaming[j.rank])
  }

  ghost predicate RanksIn(jobs: seq<Job>, renaming: Renaming) { forall j :: j in jobs ==> j.rank in renaming }

  function RenamedAll(jobs: seq<Job>, renaming: Renaming): (r: seq<Job>)
    requires RanksIn(jobs, renaming)
    ensures |r| == |jobs| && forall i :: 0 <= i < |r| ==> r[i] == Renamed(jobs[i], renaming)
  {
    seq(|jobs|, i requires 0 <= i < |jobs| => Renamed(jobs[i], renaming))
  }

  lemma AppliedPartner(t: Tree, u: Tree, renaming: Renaming, j: Job, steps: set<Step>)
    requires Renames(renaming) && Reordered(t, u, renaming) && j.rank in renaming && AllDeclared(j.content)
    requires Unambiguous(t, steps) && StepsIn(j.path, steps) && Resolvable(t, j)
    ensures Resolvable(u, Renamed(j, renaming))
    ensures Reordered(Apply(t, j), Apply(u, Renamed(j, renaming)), renaming)
  {
    hide Reordered, Unambiguous, StepsIn, AllDeclared, InsertAt, Find;
    FindsPartner(t, u, renaming, j.path, steps);
    if Adds(j) {
      InsertedPartner(t, u, renaming, j.path, j.content, j.rank, steps);
    }
  }

  /** The renamed run is valid on the reordered tree and ends reordered. */
  lemma {:induction false} RunReordered(t: Tree, u: Tree, renaming: Renaming, run: seq<Job>, steps: set<Step>)
    requires Renames(renaming) && Reordered(t, u, renaming) && Valid(t, run) && RanksIn(run, renaming)
    requires (forall j :: j in run ==> AllDeclared(j.content) && StepsIn(j.path, steps))
             && Unambiguous(Run(t, run), steps)
    ensures Valid(u, RenamedAll(run, renaming))
    ensures Reordered(Run(t, run), Run(u, RenamedAll(run, renaming)), renaming)
    decreases |run|
  {
    hide Reordered, Unambiguous, StepsIn, AllDeclared, Apply, Resolvable;
    if run != [] {
      var j := run[0];
      assert j in run;
      RunUnambiguous(t, run, steps);
      AppliedPartner(t, u, renaming, j, steps);
      RunReordered(Apply(t, j), Apply(u, Renamed(j, renaming)), renaming, run[1..], steps);
      assert RenamedAll(run, renaming)[1..] == RenamedAll(run[1..], renaming);
    }
  }

  // ---- Two declaration orders

  /** The jobs as declared: the rank of each is its position, counted from one. */
  ghost predicate InRankOrder(jobs: seq<Job>) { forall i :: 0 <= i < |jobs| ==> jobs[i].rank == i + 1 }

  /** jobs' are jobs declared in another order; renaming gives the new rank for each old one. */
  ghost predicate Redeclared(jobs: seq<Job>, jobs': seq<Job>, renaming: Renaming) {
    && InRankOrder(jobs) && InRankOrder(jobs') && |jobs| == |jobs'| && Renames(renaming)
    && (forall r: nat :: r in renaming <==> r <= |jobs|)
    && (forall i :: 0 <= i < |jobs| ==> i + 1 in renaming && Renamed(jobs[i], renaming) in jobs')
    && (forall k :: 0 <= k < |jobs'| ==>
        exists i :: 0 <= i < |jobs| && i + 1 in renaming && Renamed(jobs[i], renaming) == jobs'[k])
  }

  lemma RanksDistinct(jobs: seq<Job>)
    requires InRankOrder(jobs)
    ensures Distinct(jobs) && Ranked(set j | j in jobs)
    ensures forall j :: j in jobs ==> 1 <= j.rank <= |jobs| && jobs[j.rank - 1] == j
  {
  }

  /** The renamed jobs are those of the other declaration. */
  lemma RedeclaredJobs(jobs: seq<Job>, jobs': seq<Job>, renaming: Renaming)
    requires Redeclared(jobs, jobs', renaming)
    ensures RanksIn(jobs, renaming)
    ensures forall j :: j in jobs ==> Renamed(j, renaming) in jobs'
    ensures forall k :: k in jobs' ==> exists j :: j in jobs && Renamed(j, renaming) == k
  {
    RanksDistinct(jobs);
    forall j | j in jobs
      ensures Renamed(j, renaming) in jobs'
    {
      assert jobs[j.rank - 1] == j && j.rank - 1 + 1 in renaming;
    }
    forall k | k in jobs'
      ensures exists j :: j in jobs && Renamed(j, renaming) == k
    {
      var n :| 0 <= n < |jobs'| && jobs'[n] == k;
      var i :| 0 <= i < |jobs| && i + 1 in renaming && Renamed(jobs[i], renaming) == jobs'[n];
      assert jobs[i] in jobs;
    }
  }

  /** A maximal run of one declaration, renamed, is a maximal run of the other. */
  lemma RenamedMaximal(t: Tree, run: seq<Job>, jobs: seq<Job>, jobs': seq<Job>, renaming: Renaming, steps: set<Step>)
    requires Redeclared(jobs, jobs', renaming) && Declared(t) && Maximal(t, run, set j | j in jobs)
    requires (forall j :: j in jobs ==> AllDeclared(j.content)) && StepsOf((set j | j in jobs), steps)
    requires Unambiguous(Run(t, run), steps)
    ensures RanksIn(run, renaming)
    ensures Maximal(t, RenamedAll(run, renaming), set j | j in jobs')
    ensures Reordered(Run(t, run), Run(t, RenamedAll(run, renaming)), renaming)
  {
    hide Reordered, Unambiguous, StepsIn, AllDeclared, Apply, Resolvable, Run, Valid, Redeclared, Renames;
    RedeclaredJobs(jobs, jobs', renaming);
    RanksDistinct(jobs) by {
      assert InRankOrder(jobs) by { RedeclaredRanks(jobs, jobs', renaming); }
    }
    RedeclaredRanks(jobs, jobs', renaming);
    assert AllDeclared(t.children) by { DeclaredChildren(t); }
    DeclaredSelf(t, t, renaming);
    RunReordered(t, t, renaming, run, steps);
    var renamed := RenamedAll(run, renaming);
    RenamedMembers(run, jobs, renaming);
    forall k | k in (set j | j in jobs') && k !in renamed
      ensures !Resolvable(Run(t, renamed), k)
    {
      var j :| j in jobs && Renamed(j, renaming) == k;
      StillUnresolved(Run(t, run), Run(t, renamed), renaming, j, steps);
    }
  }

  lemma RedeclaredRanks(jobs: seq<Job>, jobs': seq<Job>, renaming: Renaming)
    requires Redeclared(jobs, jobs', renaming)
    ensures InRankOrder(jobs) && InRankOrder(jobs') && Renames(renaming)
  {
  }

  lemma DeclaredChildren(t: Tree)
    requires Declared(t)
    ensures AllDeclared(t.children)
  {
  }

  lemma StillUnresolved(t: Tree, u: Tree, renaming: Renaming, j: Job, steps: set<Step>)
    requires Renames(renaming) && Reordered(t, u, renaming) && Unambiguous(t, steps) && StepsIn(j.path, steps)
             && j.rank in renaming
    ensures Resolvable(t, j) <==> Resolvable(u, Renamed(j, renaming))
  {
    hide Reordered, Unambiguous, StepsIn, Find;
    FindsPartner(t, u, renaming, j.path, steps);
  }

  lemma RenamedMembers(run: seq<Job>, jobs: seq<Job>, renaming: Renaming)
    requires Renames(renaming) && RanksIn(jobs, renaming) && RanksIn(run, renaming) && Distinct(run)
             && forall j :: j in run ==> j in jobs
    ensures Distinct(RenamedAll(run, renaming))
    ensures forall j :: j in jobs ==> (j in run <==> Renamed(j, renaming) in RenamedAll(run, renaming))
    ensures forall k :: k in RenamedAll(run, renaming) ==> exists j :: j in run && Renamed(j, renaming) == k
  {
    var r := RenamedAll(run, renaming);
    forall a: Job, b: Job | a.rank in renaming && b.rank in renaming && Renamed(a, renaming) == Renamed(b, renaming)
      ensures a == b
    {
      assert a.rank == b.rank;
      assert a == Renamed(a, renaming).(rank := a.rank) && b == Renamed(b, renaming).(rank := b.rank);
    }
    forall j | j in jobs
      ensures j in run <==> Renamed(j, renaming) in r
    {
      if j in run {
        var i :| 0 <= i < |run| && run[i] == j;
        assert r[i] == Renamed(j, renaming);
      }
      if Renamed(j, renaming) in r {
        var i :| 0 <= i < |r| && r[i] == Renamed(j, renaming);
        assert run[i] in run;
      }
    }
    forall k | k in r
      ensures exists j :: j in run && Renamed(j, renaming) == k
    {
      var i :| 0 <= i < |r| && r[i] == k;
      assert run[i] in run;
    }
    forall i, j | 0 <= i < j < |r|
      ensures r[i] != r[j]
    {
      assert run[i] in run && run[j] in run;
    }
  }

  /**
   Declaring augments in another order does not change which of them resolve, and the final
   trees differ only in the order of groups of siblings: each group keeps its members in
   order, and in both trees the groups stand in the order of their ranks.
   */
  method DeclarationOrderDoesNotMatter(t: Tree, jobs: seq<Job>, jobs': seq<Job>, ghost renaming: Renaming,
                                       ghost steps: set<Step>)
    returns (t1: Tree, t2: Tree, pending1: seq<Job>, pending2: seq<Job>)
    requires Redeclared(jobs, jobs', renaming) && Declared(t) && forall j :: j in jobs ==> AllDeclared(j.content)
    requires Pinned(steps) && StepsOf((set j | j in jobs), steps)
    ensures UniqueSiblings(t1) ==> UniqueSiblings(t2) && Reordered(t1, t2, renaming)
    ensures UniqueSiblings(t1) ==> forall j :: j in jobs && j.rank in renaming ==>
            (j in pending1 <==> Renamed(j, renaming) in pending2)
    ensures AllOrdered(t1) && AllOrdered(t2)
  {
    hide Reordered, Unambiguous, StepsIn, AllDeclared, Apply, Resolvable, Run, Valid, Redeclared, UniqueSiblings, Scan,
         Settle, Pinned, Maximal, Declared, AllOrdered, RunOfDeclared, Ranked;
    RedeclaredRanks(jobs, jobs', renaming);
    RanksDistinct(jobs);
    RanksDistinct(jobs');
    RedeclaredJobs(jobs, jobs', renaming);
    var s1 := new Schema(t);
    ghost var run1;
    pending1, run1 := s1.ApplyAugments(jobs);
    t1 := s1.tree;
    var s2 := new Schema(t);
    ghost var run2;
    pending2, run2 := s2.ApplyAugments(jobs');
    t2 := s2.tree;
    RenamedSteps(jobs, jobs', renaming, steps);
    RunOrdered(t, run1, jobs, steps);
    RunOrdered(t, run2, jobs', steps);
    if UniqueSiblings(t1) {
      PinnedUnambiguous(t1, steps);
      RenamedMaximal(t, run1, jobs, jobs', renaming, steps);
      var renamed := RenamedAll(run1, renaming);
      MaximalDistinct(t, renamed, (set j | j in jobs'));
      ReorderedUnambiguous(t1, Run(t, renamed), renaming, steps);
      Confluence(t, renamed, run2, (set j | j in jobs'), steps);
      ReorderedUnique(t1, t2, renaming);
      assert forall j :: j in run1 ==> j in jobs;
      RenamedMembers(run1, jobs, renaming) by {
        MaximalDistinct(t, run1, (set j | j in jobs));
      }
    }
  }

  lemma MaximalDistinct(t: Tree, run: seq<Job>, jobs: set<Job>)
    requires Maximal(t, run, jobs)
    ensures Distinct(run) && Valid(t, run) && forall j :: j in run ==> j in jobs
  {
  }

  lemma RenamedSteps(jobs: seq<Job>, jobs': seq<Job>, renaming: Renaming, steps: set<Step>)
    requires Redeclared(jobs, jobs', renaming) && StepsOf((set j | j in jobs), steps)
             && forall j :: j in jobs ==> AllDeclared(j.content)
    ensures StepsOf((set j | j in jobs'), steps) && forall j :: j in jobs' ==> AllDeclared(j.content)
  {
    hide AllDeclared, StepsIn, Redeclared;
    RedeclaredJobs(jobs, jobs', renaming);
  }

  /** The final tree has its groups in the order of their ranks. */
  lemma RunOrdered(t: Tree, run: seq<Job>, jobs: seq<Job>, steps: set<Step>)
    requires Declared(t) && InRankOrder(jobs) && Maximal(t, run, set j | j in jobs)
    requires StepsOf((set j | j in jobs), steps) && forall j :: j in jobs ==> AllDeclared(j.content)
    ensures Valid(t, run) && AllOrdered(Run(t, run))
  {
    hide AllDeclared, StepsIn, AllOrdered, Valid, Run, Resolvable;
    RanksDistinct(jobs);
    DeclaredOrdered(t);
    FinalOrdered(t, run, steps);
  }

  // ---- Unprefixed steps

  function Named(m: ModuleId, name: string, rank: nat, children: seq<Tree>): Tree {
    Tree(QName(m, name), OtherKind, rank, children)
  }

  /** Module 0 with one container c. */
  function OneContainer(children: seq<Tree>): Tree {
    Tree(QName(0, ""), World, 0, [Tree(QName(0, ""), ModuleRoot, 0, [Named(0, "c", 0, children)])])
  }

  const ROOT_STEP := Step("", Some({0}))
  const C_STEP := Step("c", Some({0}))
  const PATH_TO_C: Path := [ROOT_STEP, C_STEP]
  // The path /m0:c/a/b, its last two steps without prefix.
  const PATH_TO_B: Path := [ROOT_STEP, C_STEP, Step("a", None), Step("b", None)]

  /** Module 1 adds to c a container a that holds b. */
  function AddsFullA(rank: nat): Job { Job(PATH_TO_C, [Named(1, "a", 0, [Named(1, "b", 0, [])])], rank, false, true) }

  /** Module 2 adds to c an empty container a. */
  function AddsEmptyA(rank: nat): Job { Job(PATH_TO_C, [Named(2, "a", 0, [])], rank, false, true) }

  function AddsBelowB(rank: nat): Job { Job(PATH_TO_B, [Named(3, "z", 0, [])], rank, false, true) }

  function FullFirst(): seq<Job> { [AddsFullA(1), AddsEmptyA(2), AddsBelowB(3)] }

  function EmptyFirst(): seq<Job> { [AddsEmptyA(1), AddsFullA(2), AddsBelowB(3)] }

  /** Finding c, and adding one child to it. */
  lemma {:induction false} AtC(children: seq<Tree>, j: Job, child: Tree)
    requires j.path == PATH_TO_C && j.content == [child] && Adds(j) && forall c :: c in children ==> c.rank <= j.rank
    ensures Resolvable(OneContainer(children), j)
    ensures Apply(OneContainer(children), j) == OneContainer(children + [child.(rank := j.rank)])
  {
    var t := OneContainer(children);
    var root, c := t.children[0], t.children[0].children[0];
    assert FirstMatch(t.children, ROOT_STEP) == 0 && FirstMatch(root.children, C_STEP) == 0;
    assert PATH_TO_C[1..] == [C_STEP] && [C_STEP][1..] == [];
    assert Find(c, []) == Some(c) && Find(root, [C_STEP]) == Some(c);
    assert Contribution([child], OtherKind, j.rank) == [child.(rank := j.rank)];
    assert PlaceIndex(children, j.rank) == |children|;
    assert Place(children, [child.(rank := j.rank)], j.rank) == children + [child.(rank := j.rank)];
    var longer := c.(children := children + [child.(rank := j.rank)]);
    assert InsertAt(c, [], [child], j.rank) == longer;
    assert InsertAt(root, [C_STEP], [child], j.rank) == root.(children := [longer]);
  }

  /** The path to b leads through the first child named a. */
  lemma {:induction false} BelowB(first: Tree, others: seq<Tree>, rank: nat)
    requires first.id.name == "a"
    ensures Resolvable(OneContainer([first] + others), AddsBelowB(rank)) <==> Find(first, [Step("b", None)]).Some?
  {
    var t := OneContainer([first] + others);
    var root, c := t.children[0], t.children[0].children[0];
    assert FirstMatch(t.children, ROOT_STEP) == 0 && FirstMatch(root.children, C_STEP) == 0;
    assert FirstMatch(c.children, Step("a", None)) == 0;
    assert PATH_TO_B[1..] == [C_STEP, Step("a", None), Step("b", None)];
    assert PATH_TO_B[1..][1..] == [Step("a", None), Step("b", None)];
    assert PATH_TO_B[1..][1..][1..] == [Step("b", None)];
    assert Find(t, PATH_TO_B) == Find(root, PATH_TO_B[1..]) == Find(c, PATH_TO_B[1..][1..]) ==
           Find(first, [Step("b", None)]);
  }

  lemma FullFirstSettles()
    ensures Settle(OneContainer([]), FullFirst()).rest == []
  {
    hide Resolvable, Apply, Find, Place, InsertAt;
    var b := Named(1, "b", 0, []);
    var a1, a2 := Named(1, "a", 1, [b]), Named(2, "a", 2, []);
    AtC([], AddsFullA(1), Named(1, "a", 0, [b]));
    AtC([a1], AddsEmptyA(2), Named(2, "a", 0, []));
    BelowB(a1, [a2], 3);
    assert Find(a1, [Step("b", None)]).Some? by { FindsB(a1); }
    assert [] + [a1] == [a1] && [a1] + [a2] == [a1, a2];
    var jobs := FullFirst();
    assert jobs[1..] == [AddsEmptyA(2), AddsBelowB(3)] && jobs[1..][1..] == [AddsBelowB(3)]
           && [AddsBelowB(3)][1..] == [];
    ScanOne(OneContainer([a1, a2]), AddsBelowB(3));
    assert Scan(OneContainer([a1]), jobs[1..]).rest == [];
    assert Scan(OneContainer([]), jobs).rest == [];
    SettleNext(OneContainer([]), jobs);
    SettleNothing(Scan(OneContainer([]), jobs).tree);
  }

  lemma FindsB(a: Tree)
    requires a.children == [Named(1, "b", 0, [])] || a.children == []
    ensures Find(a, [Step("b", None)]).Some? <==> a.children != []
  {
  }

  lemma ScanOne(t: Tree, j: Job)
    ensures Scan(t, [j]) == if Resolvable(t, j) then Scanned(Apply(t, j), [j], []) else Scanned(t, [], [j])
  {
    hide Resolvable, Apply;
    assert [j][1..] == [];
  }

  lemma EmptyFirstSettles()
    ensures Settle(OneContainer([]), EmptyFirst()).rest == [AddsBelowB(3)]
  {
    hide Resolvable, Apply, Find, Place, InsertAt;
    var b := Named(1, "b", 0, []);
    var a2, a1 := Named(2, "a", 1, []), Named(1, "a", 2, [b]);
    AtC([], AddsEmptyA(1), Named(2, "a", 0, []));
    AtC([a2], AddsFullA(2), Named(1, "a", 0, [b]));
    BelowB(a2, [a1], 3);
    FindsB(a2);
    assert [] + [a2] == [a2] && [a2] + [a1] == [a2, a1];
    var jobs, last := EmptyFirst(), OneContainer([a2, a1]);
    assert jobs[1..] == [AddsFullA(2), AddsBelowB(3)] && jobs[1..][1..] == [AddsBelowB(3)];
    ScanOne(last, AddsBelowB(3));
    assert Scan(OneContainer([a2]), jobs[1..]) == Scanned(last, [AddsFullA(2)], [AddsBelowB(3)]);
    assert Scan(OneContainer([]), jobs).tree == last && Scan(OneContainer([]), jobs).rest == [AddsBelowB(3)];
    SettleNext(OneContainer([]), jobs);
    SettleNext(last, [AddsBelowB(3)]);
  }

  /**
   Whether an augment with unprefixed steps resolves does depend on the declaration order.
   With the full container declared first, the path to b resolves; with the two augments
   before it swapped, it never does.
   */
  method UnprefixedStepsDependOnOrder() returns (pending1: seq<Job>, pending2: seq<Job>)
    ensures Redeclared(FullFirst(), EmptyFirst(), map[0 := 0, 1 := 2, 2 := 1, 3 := 3])
    ensures pending1 == [] && pending2 == [AddsBelowB(3)]
  {
    hide Settle, OneContainer;
    assert Redeclared(FullFirst(), EmptyFirst(), map[0 := 0, 1 := 2, 2 := 1, 3 := 3]) by {
      SwappedOrders();
    }
    FullFirstSettles();
    EmptyFirstSettles();
    RanksDistinct(FullFirst());
    RanksDistinct(EmptyFirst());
    var s1 := new Schema(OneContainer([]));
    ghost var run;
    pending1, run := s1.ApplyAugments(FullFirst());
    var s2 := new Schema(OneContainer([]));
    pending2, run := s2.ApplyAugments(EmptyFirst());
  }

  lemma SwappedOrders()
    ensures Redeclared(FullFirst(), EmptyFirst(), map[0 := 0, 1 := 2, 2 := 1, 3 := 3])
  {
    hide AddsFullA, AddsEmptyA, AddsBelowB;
    var renaming: Renaming := map[0 := 0, 1 := 2, 2 := 1, 3 := 3];
    var jobs, jobs' := FullFirst(), EmptyFirst();
    SwappedJobs(renaming);
    forall r: nat
      ensures r in renaming <==> r <= |jobs|
    {
      assert |jobs| == 3;
    }
    forall i | 0 <= i < |jobs|
      ensures i + 1 in renaming && Renamed(jobs[i], renaming) in jobs'
    {
      assert i == 0 || i == 1 || i == 2;
    }
    forall k | 0 <= k < |jobs'|
      ensures exists i :: 0 <= i < |jobs| && i + 1 in renaming && Renamed(jobs[i], renaming) == jobs'[k]
    {
      var i := if k == 0 then 1 else if k == 1 then 0 else 2;
      assert i + 1 in renaming && Renamed(jobs[i], renaming) == jobs'[k];
    }
  }

  lemma SwappedJobs(renaming: Renaming)
    requires renaming == map[0 := 0, 1 := 2, 2 := 1, 3 := 3]
    ensures InRankOrder(FullFirst()) && InRankOrder(EmptyFirst())
    ensures var jobs, jobs' := FullFirst(), EmptyFirst();
            && Renamed(jobs[0], renaming) == jobs'[1] && Renamed(jobs[1], renaming) == jobs'[0]
            && Renamed(jobs[2], renaming) == jobs'[2]
  {
  }
}
