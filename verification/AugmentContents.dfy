/**
 Where the nodes of an augmented tree come from.  Every node is a declared node of the initial
 tree, or belongs to the whole content of one applied augment that stands together below the
 augment's target, or is the case around such a node below a choice; and nothing is lost.
 */
module AugmentContents {
  import opened Common
  import opened SchemaTrees
  import opened Augments
  import opened AugmentOrder
  import opened AugmentDeclarations

  // ---- The relation

  /**
   What stands for a content node below a target of this kind: a case named like it and
   holding just it, or itself.
   */
  function Source(kind: Kind, c: Tree): Tree {
    if kind.Choice? && !c.kind.Case? then Tree(c.id, Case, 0, [c]) else c
  }

  function Sources(kind: Kind, content: seq<Tree>): (r: seq<Tree>)
    ensures |r| == |content| && forall i :: 0 <= i < |r| ==> r[i] == Source(kind, content[i])
  {
    seq(|content|, i requires 0 <= i < |content| => Source(kind, content[i]))
  }

  /**
   b is a with the contents of some of the jobs added: below it the children of rank 0 are
   those of a, in order, and the children of any other rank are the whole content of the job
   of that rank, in order.
   */
  ghost predicate Explained(a: Tree, b: Tree, jobs: set<Job>)
    decreases b, 1
  {
    && a.id == b.id && a.kind == b.kind
    && ExplainedGroup(b, a.children, 0, jobs)
    && forall c :: c in b.children && c.rank > 0 ==> Contributed(b, c.rank, jobs)
  }

  ghost predicate Contributed(b: Tree, rank: nat, jobs: set<Job>)
    decreases b, 0, 1
  {
    exists j ::
      && j in jobs && !j.disabled && j.admissible && j.rank == rank
      && ExplainedGroup(b, Sources(b.kind, j.content), rank, jobs)
  }

  ghost predicate ExplainedGroup(b: Tree, sources: seq<Tree>, rank: nat, jobs: set<Job>)
    decreases b, 0, 0
  {
    var g := OfRank(b.children, rank);
    |g| == |sources| && forall i :: 0 <= i < |g| ==> g[i] in b.children && Explained(sources[i], g[i], jobs)
  }

  /** The members of a group, one by one. */
  ghost predicate AllExplained(sources: seq<Tree>, g: seq<Tree>, jobs: set<Job>) {
    |g| == |sources| && forall i :: 0 <= i < |g| ==> Explained(sources[i], g[i], jobs)
  }

  lemma GroupMembers(b: Tree, sources: seq<Tree>, rank: nat, jobs: set<Job>)
    ensures ExplainedGroup(b, sources, rank, jobs) <==> AllExplained(sources, OfRank(b.children, rank), jobs)
  {
    hide Explained, OfRank;
    var g := OfRank(b.children, rank);
    assert forall i :: 0 <= i < |g| ==> g[i] in g;
  }

  lemma MakeExplained(a: Tree, b: Tree, jobs: set<Job>)
    requires a.id == b.id && a.kind == b.kind && AllExplained(a.children, OfRank(b.children, 0), jobs)
    requires forall c :: c in b.children && c.rank > 0 ==> Contributed(b, c.rank, jobs)
    ensures Explained(a, b, jobs)
  {
    hide AllExplained, OfRank, Contributed;
    GroupMembers(b, a.children, 0, jobs);
  }

  lemma DeclaredGroup(a: Tree, b: Tree, jobs: set<Job>)
    requires Explained(a, b, jobs)
    ensures a.id == b.id && a.kind == b.kind && AllExplained(a.children, OfRank(b.children, 0), jobs)
    ensures forall c :: c in b.children && c.rank > 0 ==> Contributed(b, c.rank, jobs)
  {
    hide AllExplained, OfRank, Contributed;
    GroupMembers(b, a.children, 0, jobs);
  }

  lemma JobOf(b: Tree, rank: nat, jobs: set<Job>) returns (j: Job)
    requires Contributed(b, rank, jobs)
    ensures j in jobs && Adds(j) && j.rank == rank
    ensures AllExplained(Sources(b.kind, j.content), OfRank(b.children, rank), jobs)
  {
    hide AllExplained, OfRank, ExplainedGroup, Sources;
    j :| j in jobs && !j.disabled && j.admissible && j.rank == rank
      && ExplainedGroup(b, Sources(b.kind, j.content), rank, jobs);
    GroupMembers(b, Sources(b.kind, j.content), rank, jobs);
  }

  lemma MakeContributed(b: Tree, rank: nat, jobs: set<Job>, j: Job)
    requires j in jobs && Adds(j) && j.rank == rank
    requires AllExplained(Sources(b.kind, j.content), OfRank(b.children, rank), jobs)
    ensures Contributed(b, rank, jobs)
  {
    hide AllExplained, OfRank, ExplainedGroup, Sources;
    GroupMembers(b, Sources(b.kind, j.content), rank, jobs);
  }

  // ---- One insertion

  lemma {:induction false} ExplainedMore(a: Tree, b: Tree, jobs: set<Job>, more: set<Job>)
    requires Explained(a, b, jobs) && jobs <= more
    ensures Explained(a, b, more)
    decreases b, 1
  {
    hide OfRank, Explained, Contributed, Sources;
    DeclaredGroup(a, b, jobs);
    GroupMore(b, a.children, 0, jobs, more);
    forall c | c in b.children && c.rank > 0
      ensures Contributed(b, c.rank, more)
    {
      var j := JobOf(b, c.rank, jobs);
      GroupMore(b, Sources(b.kind, j.content), c.rank, jobs, more);
      MakeContributed(b, c.rank, more, j);
    }
    MakeExplained(a, b, more);
  }

  lemma {:induction false} GroupMore(b: Tree, sources: seq<Tree>, rank: nat, jobs: set<Job>, more: set<Job>)
    requires AllExplained(sources, OfRank(b.children, rank), jobs) && jobs <= more
    ensures AllExplained(sources, OfRank(b.children, rank), more)
    decreases b, 0
  {
    hide OfRank, Explained;
    var g := OfRank(b.children, rank);
    forall i | 0 <= i < |g|
      ensures Explained(sources[i], g[i], more)
    {
      assert g[i] in g;
      ExplainedMore(sources[i], g[i], jobs, more);
    }
  }

  /** A declared node explains itself. */
  lemma {:induction false} DeclaredExplained(a: Tree, b: Tree, jobs: set<Job>)
    requires a.id == b.id && a.kind == b.kind && a.children == b.children && AllDeclared(b.children)
    ensures Explained(a, b, jobs)
    decreases b
  {
    hide OfRank, Explained, Declared;
    forall c | c in b.children
      ensures c.rank == 0 && Explained(c, c, jobs)
    {
      IsDeclared(c);
      DeclaredExplained(c, c, jobs);
    }
    OfOneRank(b.children, 0, 0);
    MakeExplained(a, b, jobs);
  }

  lemma IsDeclared(c: Tree)
    requires Declared(c)
    ensures c.rank == 0 && AllDeclared(c.children)
  {
  }

  /** The nodes an augment adds are explained by its content. */
  lemma {:induction false} ContributionExplained(content: seq<Tree>, kind: Kind, rank: nat, jobs: set<Job>)
    requires AllDeclared(content)
    ensures AllExplained(Sources(kind, content), Contribution(content, kind, rank), jobs)
  {
    hide Explained, Declared;
    if content != [] {
      var c := content[0];
      assert c in content;
      IsDeclared(c);
      ContributionExplained(content[1..], kind, rank, jobs);
      var r := Contribution(content, kind, rank);
      DeclaredExplained(Source(kind, c), r[0], jobs);
      forall i | 0 <= i < |r|
        ensures Explained(Sources(kind, content)[i], r[i], jobs)
      {
        if i > 0 {
          assert r[i] == Contribution(content[1..], kind, rank)[i - 1] && content[i] == content[1..][i - 1];
          assert Sources(kind, content)[i] == Sources(kind, content[1..])[i - 1];
        }
      }
    }
  }

  lemma InsertedHereExplained(a: Tree, b: Tree, j: Job, jobs: set<Job>)
    requires Explained(a, b, jobs) && AllDeclared(j.content) && j.rank > 0 && Adds(j) && NoRank(b, j.rank)
    ensures Explained(a, InsertAt(b, [], j.content, j.rank), jobs + {j})
  {
    hide OfRank, Explained, Contributed, Sources, AllDeclared, Place, Contribution, NoRank, AllExplained;
    var more := jobs + {j};
    var added := Contribution(j.content, b.kind, j.rank);
    var r := InsertAt(b, [], j.content, j.rank);
    ExplainedMore(a, b, jobs, more);
    DeclaredGroup(a, b, more);
    ContributionRank(j.content, b.kind, j.rank);
    PlacedMembers(b.children, added, j.rank);
    PlacedOfRank(b.children, added, j.rank, 0);
    assert OfRank(r.children, 0) == OfRank(b.children, 0) + [] == OfRank(b.children, 0);
    NoOwnRank(b, j.rank);
    forall c | c in r.children && c.rank > 0
      ensures Contributed(r, c.rank, more)
    {
      PlacedOfRank(b.children, added, j.rank, c.rank);
      if c.rank == j.rank {
        ContributionExplained(j.content, b.kind, j.rank, more);
        assert OfRank(r.children, c.rank) == [] + added == added;
        MakeContributed(r, c.rank, more, j);
      } else {
        var i := JobOf(b, c.rank, more);
        assert OfRank(r.children, c.rank) == OfRank(b.children, c.rank) + [] == OfRank(b.children, c.rank);
        MakeContributed(r, c.rank, more, i);
      }
    }
    MakeExplained(a, r, more);
  }

  lemma NoOwnRank(b: Tree, rank: nat)
    requires NoRank(b, rank)
    ensures OfRank(b.children, rank) == [] && forall c :: c in b.children ==> NoRank(c, rank)
  {
    OfNoRank(b.children, rank);
  }

  /** Inserting the content of one more job, wherever its target is. */
  lemma {:induction false} InsertedExplained(a: Tree, b: Tree, path: Path, j: Job, jobs: set<Job>)
    requires Explained(a, b, jobs) && AllDeclared(j.content) && j.rank > 0 && Adds(j) && NoRank(b, j.rank)
    requires Find(b, path).Some?
    ensures Explained(a, InsertAt(b, path, j.content, j.rank), jobs + {j})
    decreases |path|
  {
    hide OfRank, Explained, Contributed, Sources, AllDeclared, Place, Contribution, NoRank, AllExplained, PlaceInGroup;
    if path == [] {
      InsertedHereExplained(a, b, j, jobs);
    } else {
      var more := jobs + {j};
      var i := FirstMatch(b.children, path[0]);
      var c := b.children[i];
      var d := InsertAt(c, path[1..], j.content, j.rank);
      NoOwnRank(b, j.rank);
      DeclaredGroup(a, b, jobs);
      forall sources | AllExplained(sources, OfRank(b.children, c.rank), jobs)
        ensures AllExplained(sources, OfRank(b.children[i := d], c.rank), more)
      {
        var k := PlaceInGroup(b.children, i);
        UpdatedOfRank(b.children, i, d, c.rank);
        GroupMore(b, sources, c.rank, jobs, more);
        MemberOf(sources, OfRank(b.children, c.rank), jobs, k);
        InsertedExplained(sources[k], c, path[1..], j, jobs);
        UpdatedMember(sources, OfRank(b.children, c.rank), more, k, d);
      }
      UpdatedExplained(a, b, i, d, jobs, more);
    }
  }

  lemma MemberOf(sources: seq<Tree>, g: seq<Tree>, jobs: set<Job>, k: nat)
    requires AllExplained(sources, g, jobs) && k < |g|
    ensures k < |sources| && Explained(sources[k], g[k], jobs)
  {
  }

  lemma UpdatedMember(sources: seq<Tree>, g: seq<Tree>, jobs: set<Job>, k: nat, d: Tree)
    requires AllExplained(sources, g, jobs) && k < |g| && Explained(sources[k], d, jobs)
    ensures AllExplained(sources, g[k := d], jobs)
  {
    hide Explained;
  }

  lemma UpdatedExplained(a: Tree, b: Tree, i: nat, d: Tree, jobs: set<Job>, more: set<Job>)
    requires Explained(a, b, jobs) && i < |b.children| && SameHead(d, b.children[i]) && jobs <= more
    requires forall sources :: AllExplained(sources, OfRank(b.children, d.rank), jobs) ==>
             AllExplained(sources, OfRank(b.children[i := d], d.rank), more)
    ensures Explained(a, b.(children := b.children[i := d]), more)
  {
    hide OfRank, Explained, Contributed, Sources, AllExplained, PlaceInGroup;
    var r := b.(children := b.children[i := d]);
    DeclaredGroup(a, b, jobs);
    UpdatedOfRank(b.children, i, d, 0);
    GroupMore(b, a.children, 0, jobs, more);
    forall c | c in r.children && c.rank > 0
      ensures Contributed(r, c.rank, more)
    {
      assert exists e :: e in b.children && e.rank == c.rank by {
        assert c == d || c in b.children;
        assert b.children[i] in b.children;
      }
      var e :| e in b.children && e.rank == c.rank;
      var j := JobOf(b, c.rank, jobs);
      UpdatedOfRank(b.children, i, d, c.rank);
      GroupMore(b, Sources(b.kind, j.content), c.rank, jobs, more);
      MakeContributed(r, c.rank, more, j);
    }
    MakeExplained(a, r, more);
  }

  // ---- Whole runs

  ghost predicate NoRanks(t: Tree, run: seq<Job>) { forall j :: j in run ==> NoRank(t, j.rank) }

  lemma {:induction false} RunExplained(a: Tree, t: Tree, run: seq<Job>, steps: set<Step>, jobs: set<Job>)
    requires Valid(t, run) && RunOfDeclared(run, steps) && NoRanks(t, run) && Explained(a, t, jobs)
    ensures Explained(a, Run(t, run), jobs + set j | j in run)
    decreases |run|
  {
    hide AllDeclared, RunOfDeclared, InsertAt, Find, Explained, NoRank;
    if run == [] {
      assert jobs + (set j | j in run) == jobs;
    } else {
      var j, rest := run[0], run[1..];
      RestOfDeclared(run, steps);
      assert j in run;
      ExplainedMore(a, t, jobs, jobs + {j});
      if Adds(j) {
        InsertedExplained(a, t, j.path, j, jobs);
      }
      RestNoRanks(t, run, steps);
      RunExplained(a, Apply(t, j), rest, steps, jobs + {j});
      assert run == [j] + rest;
      assert jobs + {j} + (set i | i in rest) == jobs + set i | i in run;
    }
  }

  lemma RestNoRanks(t: Tree, run: seq<Job>, steps: set<Step>)
    requires run != [] && Resolvable(t, run[0]) && RunOfDeclared(run, steps) && NoRanks(t, run)
    ensures NoRanks(Apply(t, run[0]), run[1..])
  {
    hide AllDeclared, RunOfDeclared, InsertAt, Find, NoRank;
    var j := run[0];
    RestOfDeclared(run, steps);
    forall i | i in run[1..]
      ensures NoRank(Apply(t, j), i.rank)
    {
      assert i in run;
      RankPositive(run, steps, i);
      if Adds(j) {
        InsertedNoRank(t, j.path, j.content, j.rank, i.rank);
      }
    }
  }

  /** Every node of the final tree is declared, or is accounted for by the content of one applied augment. */
  lemma FinalExplained(t: Tree, run: seq<Job>, steps: set<Step>)
    requires Declared(t) && Valid(t, run) && RunOfDeclared(run, steps)
    ensures Explained(t, Run(t, run), set j | j in run)
  {
    hide AllDeclared, RunOfDeclared, InsertAt, Find, Explained, NoRank, Run, Valid;
    IsDeclared(t);
    DeclaredExplained(t, t, {});
    forall j | j in run
      ensures NoRank(t, j.rank)
    {
      RankPositive(run, steps, j);
      DeclaredNoRank(t, j.rank);
    }
    RunExplained(t, t, run, steps, {});
    assert {} + (set j | j in run) == set j | j in run;
  }

  /** Whatever a path finds in an explained tree is explained. */
  lemma {:induction false} FoundExplained(a: Tree, b: Tree, path: Path, jobs: set<Job>) returns (source: Tree)
    requires Explained(a, b, jobs) && Find(b, path).Some?
    ensures Explained(source, Find(b, path).value, jobs)
    decreases |path|
  {
    hide OfRank, Explained, Contributed, Sources, AllExplained, PlaceInGroup;
    if path == [] {
      return a;
    }
    var i := FirstMatch(b.children, path[0]);
    var c := b.children[i];
    DeclaredGroup(a, b, jobs);
    var k := PlaceInGroup(b.children, i);
    UpdatedOfRank(b.children, i, c, c.rank);
    var sources := a.children;
    if c.rank > 0 {
      var j := JobOf(b, c.rank, jobs);
      sources := Sources(b.kind, j.content);
    }
    MemberOf(sources, OfRank(b.children, c.rank), jobs, k);
    source := FoundExplained(sources[k], c, path[1..], jobs);
  }

  /** The content of an applied augment stands below its target: all of it, in order, with all that it declares. */
  lemma ContentArrives(t: Tree, run: seq<Job>, k: nat, steps: set<Step>)
    requires Declared(t) && Valid(t, run) && RunOfDeclared(run, steps) && Unambiguous(Run(t, run), steps)
    requires k < |run| && Adds(run[k])
    ensures Find(Run(t, run), run[k].path).Some?
    ensures var target := Find(Run(t, run), run[k].path).value;
            AllExplained(Sources(target.kind, run[k].content), OfRank(target.children, run[k].rank), set j | j in run)
  {
    hide OfRank, Explained, Contributed, Sources, AllExplained, Declared, RunOfDeclared, Unambiguous, Find, NoRank, Run,
         Valid, IdsOfRank;
    var j, jobs := run[k], set j | j in run;
    assert j in run;
    RankPositive(run, steps, j);
    DeclaredNoRank(t, j.rank);
    AddedGroup(t, run, k, steps);
    FinalExplained(t, run, steps);
    var target := Find(Run(t, run), j.path).value;
    var source := FoundExplained(t, Run(t, run), j.path, jobs);
    DeclaredGroup(source, target, jobs);
    SameGroupIds(target.children, j.rank);
    if j.content == [] {
      NothingExplained(target.kind, jobs);
    } else {
      var c := OfRank(target.children, j.rank)[0];
      var i := JobOf(target, c.rank, jobs);
      OneJobOfRank(run, steps, i, j);
    }
  }

  lemma OneJobOfRank(run: seq<Job>, steps: set<Step>, i: Job, j: Job)
    requires RunOfDeclared(run, steps) && i in run && j in run && i.rank == j.rank
    ensures i == j
  {
  }

  lemma NothingExplained(kind: Kind, jobs: set<Job>)
    ensures AllExplained(Sources(kind, []), [], jobs)
  {
  }

  lemma {:induction false} SameGroupIds(children: seq<Tree>, rank: nat)
    ensures IdsOfRank(children, rank) == Ids(OfRank(children, rank))
  {
    if children != [] {
      SameGroupIds(children[..|children| - 1], rank);
    }
  }

  /** What is declared below a source is still found along the same steps, with all that it declares. */
  lemma {:induction false} DeclaredStillFound(a: Tree, b: Tree, path: Path, jobs: set<Job>, steps: set<Step>)
    requires Explained(a, b, jobs) && Unambiguous(b, steps) && StepsIn(path, steps) && Find(a, path).Some?
    ensures Find(b, path).Some? && Explained(Find(a, path).value, Find(b, path).value, jobs)
    decreases |path|
  {
    hide OfRank, Explained, Contributed, Sources, AllExplained, Unambiguous, StepsIn;
    if path != [] {
      StepsOfTail(path, steps);
      DeclaredGroup(a, b, jobs);
      var i := FirstMatch(a.children, path[0]);
      MemberSource(a.children, OfRank(b.children, 0), jobs, i);
      var d := OfRank(b.children, 0)[i];
      assert d in OfRank(b.children, 0);
      var k :| 0 <= k < |b.children| && b.children[k] == d;
      DeclaredGroup(a.children[i], d, jobs);
      StepUnambiguous(b, steps, path[0]);
      OnlyMatch(b.children, path[0], k);
      ChildUnambiguous(b, steps, k);
      DeclaredStillFound(a.children[i], d, path[1..], jobs, steps);
    }
  }

  lemma MemberSource(sources: seq<Tree>, g: seq<Tree>, jobs: set<Job>, i: nat)
    requires AllExplained(sources, g, jobs) && i < |sources|
    ensures i < |g| && Explained(sources[i], g[i], jobs)
  {
  }

  /** A disabled augment, or one that may not add its mandatory nodes, is consumed and changes nothing. */
  lemma NothingAdded(t: Tree, j: Job)
    requires Resolvable(t, j) && (j.disabled || !j.admissible)
    ensures Apply(t, j) == t
  {
  }

  // ---- Targets

  /** The child in position i is the first that bears the name of the step, in a module its prefix allows. */
  ghost predicate FirstNamed(children: seq<Tree>, s: Step, i: nat) {
    i < |children| && Named(children[i], s) && forall k :: 0 <= k < i ==> !Named(children[k], s)
  }

  ghost predicate Named(c: Tree, s: Step) {
    c.id.name == s.name && match s.modules case None => true case Some(modules) => c.id.mod in modules
  }

  /** Going down from t through first children so named ends at u. */
  ghost predicate Leads(t: Tree, path: Path, u: Tree)
    decreases |path|
  {
    if path == [] then u == t
    else exists i: nat :: FirstNamed(t.children, path[0], i) && Leads(t.children[i], path[1..], u)
  }

  /** The target of an augment is the node its steps lead to; without it the augment stays pending. */
  lemma {:induction false} FoundByNames(t: Tree, path: Path)
    ensures forall u :: Find(t, path) == Some(u) <==> Leads(t, path, u)
    decreases |path|
  {
    if path != [] {
      var i := FirstMatch(t.children, path[0]);
      if i < |t.children| {
        assert FirstNamed(t.children, path[0], i);
        FoundByNames(t.children[i], path[1..]);
      }
      forall k: nat | FirstNamed(t.children, path[0], k)
        ensures k == i
      {
        assert k < i ==> Matches(path[0], t.children[k].id);
      }
    }
  }

  // ---- Conservation

  function Nodes(t: Tree): nat { 1 + NodesAll(t.children) }

  function NodesAll(ts: seq<Tree>): nat { if ts == [] then 0 else Nodes(ts[0]) + NodesAll(ts[1..]) }

  /** How many cases a target of this kind needs around content. */
  function CasesAround(kind: Kind, content: seq<Tree>): nat {
    if content == [] then 0
    else (if kind.Choice? && !content[0].kind.Case? then 1 else 0) + CasesAround(kind, content[1..])
  }

  /** The nodes the jobs of a run bring in. */
  ghost function Brought(t: Tree, run: seq<Job>): nat
    requires Valid(t, run)
    decreases |run|
  {
    if run == [] then 0
    else
      var j := run[0];
      (if Adds(j) then NodesAll(j.content) + CasesAround(Find(t, j.path).value.kind, j.content) else 0)
      + Brought(Apply(t, j), run[1..])
  }

  lemma {:induction false} NodesConcat(a: seq<Tree>, b: seq<Tree>)
    ensures NodesAll(a + b) == NodesAll(a) + NodesAll(b)
  {
    if a == [] {
      assert a + b == b;
    } else {
      assert (a + b)[1..] == a[1..] + b;
      NodesConcat(a[1..], b);
    }
  }

  lemma NodesUpdated(ts: seq<Tree>, i: nat, d: Tree)
    requires i < |ts|
    ensures NodesAll(ts[i := d]) + Nodes(ts[i]) == NodesAll(ts) + Nodes(d)
  {
    hide Nodes, NodesAll;
    assert ts == ts[..i] + ([ts[i]] + ts[i + 1..]) && ts[i := d] == ts[..i] + ([d] + ts[i + 1..]);
    NodesConcat(ts[..i], [ts[i]] + ts[i + 1..]);
    NodesConcat(ts[..i], [d] + ts[i + 1..]);
    NodesConcat([ts[i]], ts[i + 1..]);
    NodesConcat([d], ts[i + 1..]);
    OneNode(ts[i]);
    OneNode(d);
  }

  lemma OneNode(t: Tree)
    ensures NodesAll([t]) == Nodes(t)
  {
    assert NodesAll([t][1..]) == 0;
  }

  lemma {:induction false} ContributionNodes(content: seq<Tree>, kind: Kind, rank: nat)
    ensures NodesAll(Contribution(content, kind, rank)) == NodesAll(content) + CasesAround(kind, content)
  {
    if content != [] {
      ContributionNodes(content[1..], kind, rank);
      OneNode(content[0]);
      var r := Contribution(content, kind, rank);
      assert r[1..] == Contribution(content[1..], kind, rank);
    }
  }

  lemma {:induction false} InsertedNodes(t: Tree, path: Path, content: seq<Tree>, rank: nat)
    requires Find(t, path).Some?
    ensures Nodes(InsertAt(t, path, content, rank)) ==
            Nodes(t) + NodesAll(content) + CasesAround(Find(t, path).value.kind, content)
    decreases |path|
  {
    hide Contribution, NodesAll, CasesAround;
    if path == [] {
      var added := Contribution(content, t.kind, rank);
      var at := PlaceIndex(t.children, rank);
      assert t.children == t.children[..at] + t.children[at..];
      NodesConcat(t.children[..at], t.children[at..]);
      NodesConcat(t.children[..at] + added, t.children[at..]);
      NodesConcat(t.children[..at], added);
      ContributionNodes(content, t.kind, rank);
    } else {
      var i := FirstMatch(t.children, path[0]);
      InsertedNodes(t.children[i], path[1..], content, rank);
      NodesUpdated(t.children, i, InsertAt(t.children[i], path[1..], content, rank));
    }
  }

  /**
   Nothing is lost and nothing comes twice: the nodes of the final tree are as many as were
   there and were brought.
   */
  lemma {:induction false} NodesConserved(t: Tree, run: seq<Job>)
    requires Valid(t, run)
    ensures Nodes(Run(t, run)) == Nodes(t) + Brought(t, run)
    decreases |run|
  {
    hide Nodes, NodesAll, CasesAround, InsertAt, Find;
    if run != [] {
      if Adds(run[0]) {
        InsertedNodes(t, run[0].path, run[0].content, run[0].rank);
      }
      NodesConserved(Apply(t, run[0]), run[1..]);
    }
  }

  // ---- Applying augments

  /**
   After all augments were applied, the tree is explained by the initial tree and the contents
   of the applied ones, and each content stands whole below its target.
   */
  method EverythingArrives(t: Tree, jobs: seq<Job>, ghost steps: set<Step>) returns (final: Tree, pending: seq<Job>)
    requires Declared(t) && InRankOrder(jobs) && StepsOf((set j | j in jobs), steps)
    requires forall j :: j in jobs ==> AllDeclared(j.content)
    ensures Explained(t, final, set j | j in jobs && j !in pending)
    ensures Unambiguous(final, steps) ==>
              forall j :: j in jobs && j !in pending && !j.disabled && j.admissible ==>
                && Find(final, j.path).Some?
                && var target := Find(final, j.path).value;
                   AllExplained(Sources(target.kind, j.content), OfRank(target.children, j.rank),
                                set i | i in jobs && i !in pending)
    ensures forall j :: j in pending ==> j in jobs && Find(final, j.path).None?
  {
    hide OfRank, Explained, Sources, AllExplained, Declared, RunOfDeclared, Unambiguous, Find, Run, Valid, Scan, Settle,
         AllDeclared;
    RanksDistinct(jobs);
    var s := new Schema(t);
    ghost var run;
    pending, run := s.ApplyAugments(jobs);
    final := s.tree;
    RunIsDeclared(jobs, run, steps);
    FinalExplained(t, run, steps);
    assert (set j | j in run) == set j | j in jobs && j !in pending;
    if Unambiguous(final, steps) {
      forall j | j in jobs && j !in pending && Adds(j)
        ensures Find(final, j.path).Some?
        ensures var target := Find(final, j.path).value;
                AllExplained(Sources(target.kind, j.content), OfRank(target.children, j.rank), set i | i in run)
      {
        var k :| 0 <= k < |run| && run[k] == j;
        ContentArrives(t, run, k, steps);
      }
    }
  }

  lemma RunIsDeclared(jobs: seq<Job>, run: seq<Job>, steps: set<Step>)
    requires InRankOrder(jobs) && StepsOf((set j | j in jobs), steps) && Distinct(run)
    requires (forall j :: j in jobs ==> AllDeclared(j.content)) && forall j :: j in run ==> j in jobs
    ensures RunOfDeclared(run, steps)
  {
    hide AllDeclared, StepsIn;
    RanksDistinct(jobs);
  }
}
