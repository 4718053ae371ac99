/**
 Where augmented children stand, when the paths of augments are unambiguous, and what
 happens when they are not.
 */
module AugmentOrder {
  import opened Common
  import opened SchemaTrees
  import opened Augments

  // ---- Prefixed paths

  /** Every step names the one module its node belongs to. */
  ghost predicate Pinned(steps: set<Step>) {
    forall s :: s in steps ==> s.modules.Some? && exists m :: s.modules.value == {m}
  }

  /** No two children of a node have the same module and name: what the sibling check accepts. */
  ghost predicate UniqueSiblings(t: Tree) {
    && (forall i, j :: 0 <= i < j < |t.children| ==> t.children[i].id != t.children[j].id)
    && (forall c :: c in t.children ==> UniqueSiblings(c))
  }

  /** Prefixed steps are never ambiguous among unique siblings. */
  lemma {:induction false} PinnedUnambiguous(t: Tree, steps: set<Step>)
    requires Pinned(steps) && UniqueSiblings(t)
    ensures Unambiguous(t, steps)
  {
    forall s, i, j | s in steps && 0 <= i < j < |t.children|
      ensures !(Matches(s, t.children[i].id) && Matches(s, t.children[j].id))
    {
      var m :| s.modules.value == {m};
    }
    forall c | c in t.children
      ensures Unambiguous(c, steps)
    {
      PinnedUnambiguous(c, steps);
    }
  }

  /** With prefixed paths, one run that passes the sibling check decides the outcome of them all. */
  lemma {:induction false} PrefixedConfluence(t: Tree, a: seq<Job>, b: seq<Job>, jobs: set<Job>, steps: set<Step>)
    requires Maximal(t, a, jobs) && Maximal(t, b, jobs) && Ranked(jobs) && StepsOf(jobs, steps)
    requires Pinned(steps) && UniqueSiblings(Run(t, a))
    ensures Run(t, b) == Run(t, a)
    ensures forall j :: j in a <==> j in b
  {
    hide Run, UniqueSiblings, Unambiguous, Pinned, Maximal;
    assert Valid(t, a) by {
      MaximalIsValid(t, a, jobs);
    }
    PinnedUnambiguous(Run(t, a), steps);
    Confluence(t, a, b, jobs, steps);
  }

  lemma MaximalIsValid(t: Tree, run: seq<Job>, jobs: set<Job>)
    requires Maximal(t, run, jobs)
    ensures Valid(t, run)
  {
  }

  // ---- The order of children

  function Ids(nodes: seq<Tree>): seq<QName> { seq(|nodes|, i requires 0 <= i < |nodes| => nodes[i].id) }

  /** The identities of the children with the given rank, in order. */
  function IdsOfRank(children: seq<Tree>, rank: nat): seq<QName> {
    if children == [] then []
    else
      var rest := IdsOfRank(children[..|children| - 1], rank);
      if children[|children| - 1].rank == rank then rest + [children[|children| - 1].id] else rest
  }

  ghost predicate Ordered(children: seq<Tree>) {
    forall i, j :: 0 <= i < j < |children| ==> children[i].rank <= children[j].rank
  }

  ghost predicate AllOrdered(t: Tree) {
    Ordered(t.children) && forall c :: c in t.children ==> AllOrdered(c)
  }

  /** t and everything below it is as declared, not added by an augment. */
  ghost predicate Declared(t: Tree) {
    t.rank == 0 && forall c :: c in t.children ==> Declared(c)
  }

  ghost predicate AllDeclared(nodes: seq<Tree>) {
    forall c :: c in nodes ==> Declared(c)
  }

  /** Nothing below t has the given rank. */
  ghost predicate NoRank(t: Tree, rank: nat) {
    forall c :: c in t.children ==> c.rank != rank && NoRank(c, rank)
  }

  /** Every child of a choice is a case. */
  ghost predicate ChoicesHoldCases(t: Tree) {
    forall c :: c in t.children ==> (t.kind.Choice? ==> c.kind.Case?) && ChoicesHoldCases(c)
  }

  lemma {:induction false} DeclaredOrdered(t: Tree)
    requires Declared(t)
    ensures AllOrdered(t)
  {
    forall c | c in t.children
      ensures AllOrdered(c)
    {
      DeclaredOrdered(c);
    }
    assert forall i :: 0 <= i < |t.children| ==> t.children[i] in t.children;
  }

  lemma {:induction false} DeclaredNoRank(t: Tree, rank: nat)
    requires Declared(t) && rank > 0
    ensures NoRank(t, rank)
  {
    forall c | c in t.children
      ensures NoRank(c, rank)
    {
      DeclaredNoRank(c, rank);
    }
  }

  /** What a contributed node has below it is declared. */
  lemma {:induction false} ContributedBelow(content: seq<Tree>, kind: Kind, rank: nat)
    requires AllDeclared(content)
    ensures forall c :: c in Contribution(content, kind, rank) ==> c.rank == rank && AllDeclared(c.children)
    ensures Ids(Contribution(content, kind, rank)) == Ids(content)
  {
    if content != [] {
      ContributedBelow(content[1..], kind, rank);
      assert content[0] in content;
      var node := Contribution(content, kind, rank)[0];
      assert Contribution(content, kind, rank) == [node] + Contribution(content[1..], kind, rank);
    }
  }

  lemma PlacedMembers(children: seq<Tree>, added: seq<Tree>, rank: nat)
    ensures forall c :: c in Place(children, added, rank) <==> c in children || c in added
  {
    var at := PlaceIndex(children, rank);
    assert children == children[..at] + children[at..];
  }

  lemma PlacedOrdered(children: seq<Tree>, added: seq<Tree>, rank: nat)
    requires Ordered(children) && forall c :: c in added ==> c.rank == rank
    ensures Ordered(Place(children, added, rank))
  {
  }

  lemma BelowOrdered(c: Tree)
    requires AllDeclared(c.children)
    ensures AllOrdered(c)
  {
    assert forall i :: 0 <= i < |c.children| ==> c.children[i] in c.children;
    forall d | d in c.children
      ensures AllOrdered(d)
    {
      DeclaredOrdered(d);
    }
  }

  /** Insertion keeps children ordered by rank everywhere. */
  lemma {:induction false} InsertedOrdered(t: Tree, path: Path, content: seq<Tree>, rank: nat)
    requires Find(t, path).Some? && AllOrdered(t) && AllDeclared(content)
    ensures AllOrdered(InsertAt(t, path, content, rank))
    decreases |path|
  {
    hide Place, Contribution, FirstMatch;
    var r := InsertAt(t, path, content, rank);
    if path == [] {
      var added := Contribution(content, t.kind, rank);
      ContributedBelow(content, t.kind, rank);
      PlacedMembers(t.children, added, rank);
      PlacedOrdered(t.children, added, rank);
      forall c | c in added
        ensures AllOrdered(c)
      {
        BelowOrdered(c);
      }
    } else {
      var i := FirstMatch(t.children, path[0]);
      InsertedOrdered(t.children[i], path[1..], content, rank);
    }
  }

  lemma BelowNoRank(c: Tree, rank: nat)
    requires AllDeclared(c.children) && rank > 0
    ensures NoRank(c, rank)
  {
    forall d | d in c.children
      ensures d.rank != rank && NoRank(d, rank)
    {
      DeclaredNoRank(d, rank);
    }
  }

  lemma {:induction false} InsertedNoRank(t: Tree, path: Path, content: seq<Tree>, rank: nat, other: nat)
    requires Find(t, path).Some? && NoRank(t, other) && AllDeclared(content) && rank != other && other > 0
    ensures NoRank(InsertAt(t, path, content, rank), other)
    decreases |path|
  {
    hide Place, Contribution, FirstMatch;
    if path == [] {
      var added := Contribution(content, t.kind, rank);
      ContributedBelow(content, t.kind, rank);
      PlacedMembers(t.children, added, rank);
      forall c | c in added
        ensures NoRank(c, other)
      {
        BelowNoRank(c, other);
      }
    } else {
      var i := FirstMatch(t.children, path[0]);
      InsertedNoRank(t.children[i], path[1..], content, rank, other);
    }
  }

  lemma {:induction false} CasesUnderChoices(content: seq<Tree>, kind: Kind, rank: nat)
    requires forall c :: c in content ==> ChoicesHoldCases(c)
    ensures forall c :: c in Contribution(content, kind, rank) ==>
            (kind.Choice? ==> c.kind.Case?) && ChoicesHoldCases(c)
  {
    if content != [] {
      CasesUnderChoices(content[1..], kind, rank);
      assert content[0] in content;
    }
  }

  /** Insertion never puts anything but a case under a choice. */
  lemma {:induction false} InsertedCases(t: Tree, path: Path, content: seq<Tree>, rank: nat)
    requires Find(t, path).Some? && ChoicesHoldCases(t) && forall c :: c in content ==> ChoicesHoldCases(c)
    ensures ChoicesHoldCases(InsertAt(t, path, content, rank))
    decreases |path|
  {
    hide Place, Contribution, FirstMatch;
    if path == [] {
      CasesUnderChoices(content, t.kind, rank);
      PlacedMembers(t.children, Contribution(content, t.kind, rank), rank);
    } else {
      var i := FirstMatch(t.children, path[0]);
      InsertedCases(t.children[i], path[1..], content, rank);
    }
  }

  lemma {:induction false} IdsOfRankConcat(a: seq<Tree>, b: seq<Tree>, rank: nat)
    ensures IdsOfRank(a + b, rank) == IdsOfRank(a, rank) + IdsOfRank(b, rank)
  {
    if b == [] {
      assert a + b == a;
    } else {
      assert (a + b)[..|a + b| - 1] == a + b[..|b| - 1];
      IdsOfRankConcat(a, b[..|b| - 1], rank);
    }
  }

  lemma {:induction false} IdsOfOneRank(nodes: seq<Tree>, rank: nat, other: nat)
    requires forall c :: c in nodes ==> c.rank == rank
    ensures IdsOfRank(nodes, other) == if other == rank then Ids(nodes) else []
  {
    if nodes != [] {
      assert nodes[|nodes| - 1] in nodes;
      IdsOfOneRank(nodes[..|nodes| - 1], rank, other);
      assert Ids(nodes) == Ids(nodes[..|nodes| - 1]) + [nodes[|nodes| - 1].id];
    }
  }

  lemma {:induction false} IdsOfNoRank(nodes: seq<Tree>, rank: nat)
    requires forall c :: c in nodes ==> c.rank != rank
    ensures IdsOfRank(nodes, rank) == []
  {
    if nodes != [] {
      IdsOfNoRank(nodes[..|nodes| - 1], rank);
    }
  }

  /** Placing children of one rank adds them at the end of that rank's group and leaves the other groups alone. */
  lemma PlacedGroups(children: seq<Tree>, added: seq<Tree>, rank: nat, other: nat)
    requires forall c :: c in added ==> c.rank == rank
    ensures IdsOfRank(Place(children, added, rank), other) ==
              IdsOfRank(children, other) + (if other == rank then Ids(added) else [])
  {
    hide IdsOfRank;
    var at := PlaceIndex(children, rank);
    var low, high := children[..at], children[at..];
    assert children == low + high;
    IdsOfRankConcat(low, high, other);
    IdsOfRankConcat(low + added, high, other);
    IdsOfRankConcat(low, added, other);
    IdsOfOneRank(added, rank, other);
    if other == rank {
      IdsOfNoRank(high, rank);
    }
  }

  lemma {:induction false} SameHeadsGroups(a: seq<Tree>, b: seq<Tree>, rank: nat)
    requires SameHeads(a, b)
    ensures IdsOfRank(a, rank) == IdsOfRank(b, rank)
  {
    if a != [] {
      SameHeadsGroups(a[..|a| - 1], b[..|b| - 1], rank);
    }
  }

  /** An insertion changes no other node's groups, and at its own node only the group of its rank. */
  lemma {:induction false} InsertedGroups(t: Tree, at: Path, content: seq<Tree>, rank: nat, path: Path,
                                          steps: set<Step>, other: nat)
    requires Find(t, at).Some? && Find(t, path).Some? && StepsIn(path, steps)
    requires Unambiguous(InsertAt(t, at, content, rank), steps) && AllDeclared(content) && other != rank
    ensures Find(InsertAt(t, at, content, rank), path).Some?
    ensures IdsOfRank(Find(InsertAt(t, at, content, rank), path).value.children, other) ==
            IdsOfRank(Find(t, path).value.children, other)
    decreases |at|
  {
    hide Unambiguous, StepsIn, Place, Contribution, IdsOfRank, FirstMatch, AllDeclared;
    FoundAfterInserting(t, at, content, rank, path, steps);
    var r := InsertAt(t, at, content, rank);
    if path == [] {
      if at == [] {
        ContributedBelow(content, t.kind, rank);
        PlacedGroups(t.children, Contribution(content, t.kind, rank), rank, other);
      } else {
        SameHeadsGroups(t.children, r.children, other);
      }
    } else {
      StepsOfTail(path, steps);
      var i := FirstMatch(t.children, path[0]);
      if at == [] {
        var added := Contribution(content, t.kind, rank);
        StepUnambiguous(r, steps, path[0]);
        FoundAfterPlacing(t.children, added, rank, path[0]);
        PlacedChild(t.children, added, rank, i);
      } else {
        var k := FirstMatch(t.children, at[0]);
        FirstMatchSame(t.children, r.children, path[0]);
        if i == k {
          ChildUnambiguous(r, steps, k);
          InsertedGroups(t.children[k], at[1..], content, rank, path[1..], steps, other);
        }
      }
    }
  }

  /** At its own node an insertion appends the content to the group of its rank. */
  lemma {:induction false} InsertedOwnGroup(t: Tree, at: Path, content: seq<Tree>, rank: nat)
    requires Find(t, at).Some? && AllDeclared(content)
    ensures Find(InsertAt(t, at, content, rank), at).Some?
    ensures IdsOfRank(Find(InsertAt(t, at, content, rank), at).value.children, rank) ==
              IdsOfRank(Find(t, at).value.children, rank) + Ids(content)
    decreases |at|
  {
    hide Place, Contribution, IdsOfRank, AllDeclared;
    if at == [] {
      ContributedBelow(content, t.kind, rank);
      PlacedGroups(t.children, Contribution(content, t.kind, rank), rank, rank);
    } else {
      var r := InsertAt(t, at, content, rank);
      FirstMatchSame(t.children, r.children, at[0]);
      InsertedOwnGroup(t.children[FirstMatch(t.children, at[0])], at[1..], content, rank);
    }
  }

  // ---- Whole runs

  ghost predicate RunOfDeclared(run: seq<Job>, steps: set<Step>) {
    && (forall j :: j in run ==> AllDeclared(j.content) && j.rank > 0 && StepsIn(j.path, steps))
    && (forall i, j :: 0 <= i < j < |run| ==> run[i].rank != run[j].rank)
  }

  lemma RestOfDeclared(run: seq<Job>, steps: set<Step>)
    requires RunOfDeclared(run, steps) && run != []
    ensures AllDeclared(run[0].content) && run[0].rank > 0 && StepsIn(run[0].path, steps)
    ensures RunOfDeclared(run[1..], steps) && forall j :: j in run[1..] ==> j.rank != run[0].rank
  {
    assert run[0] in run;
  }

  /** After any run every node's children are in ascending rank, declared children first. */
  lemma {:induction false} FinalOrdered(t: Tree, run: seq<Job>, steps: set<Step>)
    requires Valid(t, run) && RunOfDeclared(run, steps) && AllOrdered(t)
    ensures AllOrdered(Run(t, run))
    decreases |run|
  {
    hide AllOrdered, AllDeclared, RunOfDeclared, InsertAt, Find;
    if run != [] {
      RestOfDeclared(run, steps);
      if Adds(run[0]) {
        InsertedOrdered(t, run[0].path, run[0].content, run[0].rank);
      }
      FinalOrdered(Apply(t, run[0]), run[1..], steps);
    }
  }

  lemma {:induction false} FinalCases(t: Tree, run: seq<Job>)
    requires Valid(t, run) && ChoicesHoldCases(t) && forall j, c :: j in run && c in j.content ==> ChoicesHoldCases(c)
    ensures ChoicesHoldCases(Run(t, run))
    decreases |run|
  {
    hide ChoicesHoldCases, InsertAt, Find;
    if run != [] {
      assert run[0] in run;
      if Adds(run[0]) {
        InsertedCases(t, run[0].path, run[0].content, run[0].rank);
      }
      FinalCases(Apply(t, run[0]), run[1..]);
    }
  }

  /** A group of children that no augment of the run has the rank of stays as it was. */
  lemma {:induction false} GroupKept(t: Tree, run: seq<Job>, path: Path, steps: set<Step>, rank: nat)
    requires Valid(t, run) && RunOfDeclared(run, steps) && Unambiguous(Run(t, run), steps)
    requires Find(t, path).Some? && StepsIn(path, steps) && forall j :: j in run ==> j.rank != rank
    ensures Find(Run(t, run), path).Some?
    ensures IdsOfRank(Find(Run(t, run), path).value.children, rank) == IdsOfRank(Find(t, path).value.children, rank)
    decreases |run|
  {
    hide Unambiguous, AllDeclared, RunOfDeclared, InsertAt, Find, StepsIn, IdsOfRank;
    if run != [] {
      assert run[0] in run;
      RestOfDeclared(run, steps);
      RunUnambiguous(Apply(t, run[0]), run[1..], steps);
      if Adds(run[0]) {
        InsertedGroups(t, run[0].path, run[0].content, run[0].rank, path, steps, rank);
      }
      StillFound(t, run[0], path, steps);
      GroupKept(Apply(t, run[0]), run[1..], path, steps, rank);
    }
  }

  /** An augment that was applied has put exactly its own nodes, in order, in its group of its target's children. */
  lemma {:induction false} AddedGroup(t: Tree, run: seq<Job>, k: nat, steps: set<Step>)
    requires Valid(t, run) && RunOfDeclared(run, steps) && Unambiguous(Run(t, run), steps)
    requires k < |run| && Adds(run[k]) && NoRank(t, run[k].rank)
    ensures Find(Run(t, run), run[k].path).Some?
    ensures IdsOfRank(Find(Run(t, run), run[k].path).value.children, run[k].rank) == Ids(run[k].content)
    decreases k
  {
    hide Unambiguous, AllDeclared, RunOfDeclared, InsertAt, Find, StepsIn, IdsOfRank, NoRank;
    var j := run[k];
    RestOfDeclared(run, steps);
    RunUnambiguous(Apply(t, run[0]), run[1..], steps);
    if k == 0 {
      NoGroup(t, j.path, j.rank);
      InsertedOwnGroup(t, j.path, j.content, j.rank);
      GroupKept(Apply(t, j), run[1..], j.path, steps, j.rank);
    } else {
      assert run[1..][k - 1] == j && j in run[1..];
      RankPositive(run, steps, j);
      if Adds(run[0]) {
        InsertedNoRank(t, run[0].path, run[0].content, run[0].rank, j.rank);
      }
      AddedGroup(Apply(t, run[0]), run[1..], k - 1, steps);
    }
  }

  lemma RankPositive(run: seq<Job>, steps: set<Step>, j: Job)
    requires RunOfDeclared(run, steps) && run != [] && (j in run || j in run[1..])
    ensures j.rank > 0
  {
  }

  lemma {:induction false} NoGroup(t: Tree, path: Path, rank: nat)
    requires NoRank(t, rank) && Find(t, path).Some?
    ensures IdsOfRank(Find(t, path).value.children, rank) == []
    decreases |path|
  {
    if path == [] {
      IdsOfNoRank(t.children, rank);
    } else {
      NoGroup(t.children[FirstMatch(t.children, path[0])], path[1..], rank);
    }
  }
}
